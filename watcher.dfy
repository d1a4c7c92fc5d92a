/**
 * The watcher of the current pipeline: destination resolution, the event
 * handler with its one-second duplicate filter, the queue drain that keeps
 * the last destination per source, the initial and periodic scans, and the
 * empty-directory sweep.
 */
module Watching {
  import opened Wrappers
  import opened PathOps
  import opened Calendar
  import opened Fs
  import opened Jobs
  import opened Walks
  import opened Configuration
  import opened Compression
  import opened Processing

  // ---------------------------------------------------------------------
  // Destination resolution.

  /** `_calculate_destination_path`: a regular file directly in the root goes
      to its month bucket (an unreadable modification time falls through);
      every other path is mirrored by replacing each occurrence of the root. */
  function ResolveDestination(m: Tree, root: string, destRoot: string, source: string): string {
    var dir := Dirname(source);
    var name := Basename(source);
    if dir == root && FileAt(m, source) then
      match MtimeOf(m, source)
      case Some(t) => MonthDest(destRoot, t, name)
      case None => ReplaceAll(source, root, destRoot)
    else ReplaceAll(source, root, destRoot)
  }

  /** A file directly in the root lands in `dest/YYYY-MM/` under its own
      name. */
  lemma ResolveRootFile(m: Tree, root: string, destRoot: string, name: string)
    requires root != [] && root[|root| - 1] != '/'
    requires destRoot != [] && destRoot[|destRoot| - 1] != '/'
    requires name != [] && NoSlash(name)
    requires FileAt(m, Join(root, name))
    ensures var dest := ResolveDestination(m, root, destRoot, Join(root, name));
      && dest == MonthDest(destRoot, m[Join(root, name)].mtime, name)
      && Basename(dest) == name
      && Dirname(dest) == Join(destRoot, MonthOf(m[Join(root, name)].mtime))
      && Dirname(Dirname(dest)) == destRoot
  {
    JoinSplits(root, name);
    MonthDestSplits(destRoot, m[Join(root, name)].mtime, name);
  }

  /** Anything else whose path starts with the root, and holds it nowhere
      else, keeps its relative path under the destination root. */
  lemma ResolveMirrorsRelativePath(m: Tree, root: string, destRoot: string, rest: string)
    requires root != [] && !Occurs(root, rest)
    requires !(Dirname(root + rest) == root && FileAt(m, root + rest))
    ensures ResolveDestination(m, root, destRoot, root + rest) == destRoot + rest
  {
    ReplacePrefixOnly(root, rest, destRoot);
  }

  /** A root-level example: a photo from March 2024. */
  lemma ResolveExample(m: Tree, size: nat)
    requires "/in/photo.jpg" in m && m["/in/photo.jpg"] == File(size, 1709251200)
    ensures ResolveDestination(m, "/in", "/out", "/in/photo.jpg") == "/out/2024-03/photo.jpg"
  {
    ExampleSource();
    ResolveRootFile(m, "/in", "/out", "photo.jpg");
    MonthOfMarch2024();
    ExampleDestination();
  }

  lemma ExampleSource()
    ensures Join("/in", "photo.jpg") == "/in/photo.jpg"
    ensures NoSlash("photo.jpg")
  {
  }

  lemma ExampleDestination()
    ensures Join(Join("/out", "2024-03"), "photo.jpg") == "/out/2024-03/photo.jpg"
  {
    assert Join("/out", "2024-03") == "/out/2024-03";
  }

  /** Mirroring replaces every occurrence of the root string, not only the
      leading one: with root `/in`, `/in/x/in.jpg` goes to
      `/out/x/out.jpg`. */
  lemma ResolveReplacesInnerOccurrence(m: Tree)
    ensures ResolveDestination(m, "/in", "/out", "/in/x/in.jpg") == "/out/x/out.jpg"
  {
    assert Join("/in/x", "in.jpg") == "/in/x/in.jpg";
    JoinSplits("/in/x", "in.jpg");
    assert Dirname("/in/x/in.jpg") != "/in";
    ReplaceInnerOccurrence();
  }

  lemma ReplaceInnerOccurrence()
    ensures ReplaceAll("/in/x/in.jpg", "/in", "/out") == "/out/x/out.jpg"
  {
    var s := "/in/x/in.jpg";
    ReplaceInnerTail();
    assert s[..3] == "/in";
    assert s[3..] == "/x/in.jpg";
  }

  lemma ReplaceInnerTail()
    ensures ReplaceAll("/x/in.jpg", "/in", "/out") == "/x/out.jpg"
  {
    ReplaceInnerName();
    var u := "x/in.jpg";
    assert u[..3] != "/in" by { assert u[..3][0] == 'x'; }
    assert u[1..] == "/in.jpg";
    var v := "/x/in.jpg";
    assert v[..3] != "/in" by { assert v[..3][1] == 'x'; }
    assert v[1..] == u;
  }

  lemma ReplaceInnerName()
    ensures ReplaceAll("/in.jpg", "/in", "/out") == "/out.jpg"
  {
    NoSlashNoRoot(".jpg", "/in", "/out");
    var t := "/in.jpg";
    assert t[..3] == "/in" && t[3..] == ".jpg";
  }

  /** `replace` leaves alone a string without slashes when the pattern
      starts with one. */
  lemma NoSlashNoRoot(s: string, pat: string, rep: string)
    requires NoSlash(s) && pat != [] && pat[0] == '/'
    ensures ReplaceAll(s, pat, rep) == s
  {
    assert !Occurs(pat, s) by {
      forall i | 0 <= i < |s| ensures !MatchAt(pat, s, i) {
        assert i + |pat| > |s| || s[i..i + |pat|][0] == s[i];
      }
    }
    ReplaceAbsent(s, pat, rep);
  }

  /** The initial scan and an event agree on where a listed regular file
      goes. */
  lemma ScanAgreesWithEvent(m: Tree, root: string, destRoot: string, dir: string, name: string)
    requires dir != [] && dir[|dir| - 1] != '/'
    requires name != [] && NoSlash(name)
    requires FileAt(m, Join(dir, name))
    ensures ScanOne(m, RequireFile, root, destRoot, dir, name)
            == Some((Join(dir, name), ResolveDestination(m, root, destRoot, Join(dir, name))))
  {
    JoinSplits(dir, name);
  }

  // ---------------------------------------------------------------------
  // The duplicate filter and the event handler.

  /** `_is_duplicate_event`: an event is a duplicate when the same path was
      seen in the same whole second; otherwise it is recorded. */
  function DuplicateOp(cache: set<(int, string)>, now: int, path: string): (r: (bool, set<(int, string)>))
    ensures r.0 <==> (now, path) in cache
    ensures r.1 == cache + {(now, path)}
  {
    if (now, path) in cache then (true, cache) else (false, cache + {(now, path)})
  }

  /** The first event in a second passes and is recorded; a repeat in the
      same second is dropped without changing the cache; the same path a
      second later passes again. */
  lemma DuplicateWithinOneSecond(cache: set<(int, string)>, now: int, path: string)
    requires (now, path) !in cache && (now + 1, path) !in cache
    ensures DuplicateOp(cache, now, path) == (false, cache + {(now, path)})
    ensures var c := DuplicateOp(cache, now, path).1; DuplicateOp(c, now, path) == (true, c)
    ensures var c := DuplicateOp(cache, now, path).1; !DuplicateOp(c, now + 1, path).0
  {
  }

  /** What `on_modified` changes: the duplicate cache and the queue. */
  datatype HandlerState = HandlerState(cache: set<(int, string)>, queue: seq<Job>)

  /** `on_modified`: directory events are ignored, duplicates are dropped,
      and anything else queues its source with the resolved destination. */
  function OnModifiedOp(m: Tree, root: string, destRoot: string, s: HandlerState,
                        isDirectory: bool, path: string, now: int): HandlerState {
    if isDirectory then s
    else
      var (dup, cache') := DuplicateOp(s.cache, now, path);
      if dup then HandlerState(cache', s.queue)
      else HandlerState(cache', s.queue + [(path, ResolveDestination(m, root, destRoot, path))])
  }

  /** A directory event or a repeat changes nothing; a new event appends
      exactly one job. */
  lemma OnModifiedQueuesAtMostOne(m: Tree, root: string, destRoot: string, s: HandlerState,
                                  isDirectory: bool, path: string, now: int)
    ensures var r := OnModifiedOp(m, root, destRoot, s, isDirectory, path, now);
      && (isDirectory || (now, path) in s.cache ==> r == s)
      && (!isDirectory && (now, path) !in s.cache ==>
            r.queue == s.queue + [(path, ResolveDestination(m, root, destRoot, path))])
  {
  }

  /** A burst of events for one file within a second queues it once. */
  lemma EventBurstQueuesOnce(m: Tree, root: string, destRoot: string, s: HandlerState, path: string, now: int, k: nat)
    requires (now, path) !in s.cache
    ensures var r := Burst(m, root, destRoot, s, path, now, k + 1);
      r.queue == s.queue + [(path, ResolveDestination(m, root, destRoot, path))]
      && r.cache == s.cache + {(now, path)}
    decreases k
  {
    if k > 0 {
      EventBurstQueuesOnce(m, root, destRoot, s, path, now, k - 1);
    }
  }

  /** `k` modification events for the same file in the same second. */
  function Burst(m: Tree, root: string, destRoot: string, s: HandlerState, path: string, now: int, k: nat): HandlerState
    decreases k
  {
    if k == 0 then s else OnModifiedOp(m, root, destRoot, Burst(m, root, destRoot, s, path, now, k - 1), false, path, now)
  }

  /** `FileEventHandler`: the roots it resolves against, its duplicate cache
      and the queue it feeds. The cache's time-to-live is modelled by
      explicit expiry. */
  class FileEventHandler {
    const root: string
    const destRoot: string
    var cache: set<(int, string)>
    const queue: JobQueue

    constructor (config: Config, queue: JobQueue)
      ensures root == config.uncompressedPath && destRoot == config.compressedPath
      ensures cache == {} && this.queue == queue
    {
      root := config.uncompressedPath;
      destRoot := config.compressedPath;
      cache := {};
      this.queue := queue;
    }

    method IsDuplicateEvent(path: string, now: int) returns (dup: bool)
      modifies this
      ensures (dup, cache) == DuplicateOp(old(cache), now, path)
    {
      var key := (now, path);
      if key in cache {
        return true;
      }
      cache := cache + {key};
      return false;
    }

    method CalculateDestinationPath(fs: FileSystem, source: string) returns (dest: string)
      ensures dest == ResolveDestination(fs.entries, root, destRoot, source)
    {
      var dir := Dirname(source);
      var name := Basename(source);
      if dir == root && fs.IsFile(source) {
        var mtime := fs.GetMtime(source);
        if mtime.Some? {
          return MonthDest(destRoot, mtime.value, name);
        }
      }
      return ReplaceAll(source, root, destRoot);
    }

    method OnModified(fs: FileSystem, isDirectory: bool, path: string, now: int)
      modifies this, queue
      ensures HandlerState(cache, queue.items)
              == OnModifiedOp(fs.entries, root, destRoot, HandlerState(old(cache), old(queue.items)), isDirectory, path, now)
    {
      if isDirectory {
        return;
      }
      var dup := IsDuplicateEvent(path, now);
      if dup {
        return;
      }
      var dest := CalculateDestinationPath(fs, path);
      queue.PutNowait((path, dest));
    }

    /** Entries whose time-to-live has run out leave the cache. */
    method Expire(expired: set<(int, string)>)
      modifies this
      ensures cache == old(cache) - expired
    {
      cache := cache - expired;
    }
  }

  // ---------------------------------------------------------------------
  // Deduplicating a drained queue.

  /** A Python dict from source to destination: its keys in insertion order
      and the mapping. */
  datatype Dict = Dict(keys: seq<string>, values: map<string, string>) {
    /** Every key listed once, and the listed keys are the mapped ones. */
    ghost predicate Valid() {
      (forall k :: k in values <==> k in keys) &&
      (forall i, j :: 0 <= i < j < |keys| ==> keys[i] != keys[j])
    }

    /** `d[k] = v`: an existing key keeps its place and takes the new
        value, a new key goes last. */
    function Assign(k: string, v: string): (d: Dict)
      ensures Valid() ==> d.Valid()
      ensures k in d.values && d.values[k] == v
      ensures forall j :: j in values && j != k ==> j in d.values && d.values[j] == values[j]
      ensures k in values ==> d.keys == keys
    {
      if k in values then Dict(keys, values[k := v]) else Dict(keys + [k], values[k := v])
    }

    /** `list(d.items())` */
    function Items(): (items: seq<Job>)
      requires Valid()
      ensures |items| == |keys|
    {
      seq(|keys|, i requires 0 <= i < |keys| => (keys[i], values[keys[i]]))
    }
  }

  /** The dict built by assigning each pair in turn. */
  function Collapse(pairs: seq<Job>): Dict
    decreases |pairs|
  {
    if pairs == [] then Dict([], map[])
    else
      var n := |pairs| - 1;
      Collapse(pairs[..n]).Assign(pairs[n].0, pairs[n].1)
  }

  predicate DistinctSources(d: seq<Job>) {
    forall i, j :: 0 <= i < j < |d| ==> d[i].0 != d[j].0
  }

  predicate HasSource(d: seq<Job>, k: string) {
    exists i :: 0 <= i < |d| && d[i].0 == k
  }

  lemma HasSourceSnoc(pairs: seq<Job>, x: string)
    requires pairs != []
    ensures HasSource(pairs, x) <==> HasSource(pairs[..|pairs| - 1], x) || pairs[|pairs| - 1].0 == x
  {
    var prefix := pairs[..|pairs| - 1];
    if HasSource(prefix, x) {
      var i :| 0 <= i < |prefix| && prefix[i].0 == x;
      assert pairs[i] == prefix[i];
    }
    if HasSource(pairs, x) && pairs[|pairs| - 1].0 != x {
      var i :| 0 <= i < |pairs| && pairs[i].0 == x;
      assert prefix[i] == pairs[i];
    }
  }

  /** The drained pairs, deduplicated: `list(seen.items())`. */
  function Dedup(pairs: seq<Job>): seq<Job> {
    CollapseValid(pairs);
    Collapse(pairs).Items()
  }

  /** The dict is well formed, and its keys are exactly the sources. */
  lemma {:induction false} CollapseValid(pairs: seq<Job>)
    ensures Collapse(pairs).Valid()
    ensures forall k :: k in Collapse(pairs).values <==> HasSource(pairs, k)
    decreases |pairs|
  {
    if pairs != [] {
      var n := |pairs| - 1;
      CollapseValid(pairs[..n]);
      forall x ensures HasSource(pairs, x) <==> HasSource(pairs[..n], x) || pairs[n].0 == x {
        HasSourceSnoc(pairs, x);
      }
    }
  }

  /** Each source maps to the destination of the LAST pair with that
      source. */
  lemma {:induction false} CollapseKeepsLast(pairs: seq<Job>)
    ensures forall k :: k in Collapse(pairs).values ==> LastFor(pairs, (k, Collapse(pairs).values[k]))
    decreases |pairs|
  {
    if pairs != [] {
      var n := |pairs| - 1;
      var prefix := pairs[..n];
      var c := Collapse(prefix);
      CollapseKeepsLast(prefix);
      var c' := Collapse(pairs);
      forall k | k in c'.values ensures LastFor(pairs, (k, c'.values[k])) {
        if k == pairs[n].0 {
          assert pairs[n] == (k, c'.values[k]);
        } else {
          assert k in c.values && c'.values[k] == c.values[k];
          var j :| 0 <= j < |prefix| && prefix[j] == (k, c.values[k]) &&
                   forall j' :: j < j' < |prefix| ==> prefix[j'].0 != k;
          assert pairs[j] == prefix[j];
          forall j' | j < j' < |pairs| ensures pairs[j'].0 != k {
            if j' < n { assert pairs[j'] == prefix[j']; }
          }
        }
      }
    }
  }

  /** `job` is a pair of `pairs` and no later pair has its source. */
  predicate LastFor(pairs: seq<Job>, job: Job) {
    exists j :: 0 <= j < |pairs| && pairs[j] == job && forall j' :: j < j' < |pairs| ==> pairs[j'].0 != job.0
  }

  /** Some occurrence of `a` comes before every occurrence of `b`. */
  predicate SeenBefore(pairs: seq<Job>, a: string, b: string) {
    exists j :: 0 <= j < |pairs| && pairs[j].0 == a && forall j' :: 0 <= j' <= j ==> pairs[j'].0 != b
  }

  /** The keys come in the order their sources first appeared. */
  lemma {:induction false} CollapseKeepsFirstOrder(pairs: seq<Job>)
    ensures forall i, l :: 0 <= i < l < |Collapse(pairs).keys| ==>
              SeenBefore(pairs, Collapse(pairs).keys[i], Collapse(pairs).keys[l])
    decreases |pairs|
  {
    if pairs != [] {
      var n := |pairs| - 1;
      var prefix := pairs[..n];
      var c := Collapse(prefix);
      CollapseKeepsFirstOrder(prefix);
      CollapseValid(prefix);
      var c' := Collapse(pairs);
      forall i, l | 0 <= i < l < |c'.keys| ensures SeenBefore(pairs, c'.keys[i], c'.keys[l]) {
        var a := c'.keys[i];
        var b := c'.keys[l];
        if l < |c.keys| {
          assert a == c.keys[i] && b == c.keys[l];
          var j :| 0 <= j < |prefix| && prefix[j].0 == a && forall j' :: 0 <= j' <= j ==> prefix[j'].0 != b;
          assert pairs[j] == prefix[j];
          forall j' | 0 <= j' <= j ensures pairs[j'].0 != b {
            assert pairs[j'] == prefix[j'];
          }
        } else {
          // `b` is the new key, which no pair of the prefix has.
          assert b == pairs[n].0 && b !in c.values && a == c.keys[i];
          assert a in c.values;
          var j :| 0 <= j < |prefix| && prefix[j].0 == a;
          assert pairs[j] == prefix[j];
          forall j' | 0 <= j' <= j ensures pairs[j'].0 != b {
            assert pairs[j'] == prefix[j'];
            assert !HasSource(prefix, b);
          }
        }
      }
    }
  }

  /** Without repeated sources the dict lists the pairs as they came. */
  lemma {:induction false} CollapseOfDistinct(pairs: seq<Job>)
    requires DistinctSources(pairs)
    ensures |Collapse(pairs).keys| == |pairs|
    ensures forall i :: 0 <= i < |pairs| ==>
              Collapse(pairs).keys[i] == pairs[i].0 && pairs[i].0 in Collapse(pairs).values &&
              Collapse(pairs).values[pairs[i].0] == pairs[i].1
    decreases |pairs|
  {
    if pairs != [] {
      var n := |pairs| - 1;
      var prefix := pairs[..n];
      DistinctLast(pairs);
      CollapseOfDistinct(prefix);
      CollapseValid(prefix);
      var c := Collapse(prefix);
      var c' := Collapse(pairs);
      assert c' == Dict(c.keys + [pairs[n].0], c.values[pairs[n].0 := pairs[n].1]);
      forall i | 0 <= i < |pairs|
        ensures c'.keys[i] == pairs[i].0 && pairs[i].0 in c'.values && c'.values[pairs[i].0] == pairs[i].1
      {
        if i < n {
          assert prefix[i] == pairs[i];
          assert pairs[i].0 != pairs[n].0;
        }
      }
    }
  }

  /** Dropping the last pair keeps the sources distinct, and the last
      source is not among the others. */
  lemma DistinctLast(pairs: seq<Job>)
    requires pairs != [] && DistinctSources(pairs)
    ensures DistinctSources(pairs[..|pairs| - 1])
    ensures !HasSource(pairs[..|pairs| - 1], pairs[|pairs| - 1].0)
  {
    var prefix := pairs[..|pairs| - 1];
    forall i, j | 0 <= i < j < |prefix| ensures prefix[i].0 != prefix[j].0 {
      assert prefix[i] == pairs[i] && prefix[j] == pairs[j];
    }
    forall i | 0 <= i < |prefix| ensures prefix[i].0 != pairs[|pairs| - 1].0 {
      assert prefix[i] == pairs[i];
    }
  }

  /** The deduplicated batch lists each source once, ... */
  lemma DedupDistinct(pairs: seq<Job>)
    ensures DistinctSources(Dedup(pairs))
    ensures forall k :: HasSource(Dedup(pairs), k) <==> HasSource(pairs, k)
  {
    CollapseValid(pairs);
    var c := Collapse(pairs);
    var d := Dedup(pairs);
    forall k ensures HasSource(d, k) <==> HasSource(pairs, k) {
      if k in c.keys {
        var i :| 0 <= i < |c.keys| && c.keys[i] == k;
        assert d[i].0 == k;
      }
    }
  }

  /** ... with the destination of its last pair, ... */
  lemma DedupKeepsLast(pairs: seq<Job>)
    ensures forall i :: 0 <= i < |Dedup(pairs)| ==> LastFor(pairs, Dedup(pairs)[i])
  {
    CollapseValid(pairs);
    CollapseKeepsLast(pairs);
  }

  /** ... in the order the sources first appeared. */
  lemma DedupKeepsFirstOrder(pairs: seq<Job>)
    ensures forall i, l :: 0 <= i < l < |Dedup(pairs)| ==> SeenBefore(pairs, Dedup(pairs)[i].0, Dedup(pairs)[l].0)
  {
    CollapseValid(pairs);
    CollapseKeepsFirstOrder(pairs);
  }

  /** A queue without repeated sources goes through unchanged. */
  lemma DedupOfDistinct(pairs: seq<Job>)
    requires DistinctSources(pairs)
    ensures Dedup(pairs) == pairs
  {
    CollapseValid(pairs);
    CollapseOfDistinct(pairs);
  }

  /** Deduplication shortens the queue exactly when some source repeats,
      and empties it only when it was empty. */
  lemma {:induction false} DedupSize(pairs: seq<Job>)
    ensures |Dedup(pairs)| <= |pairs|
    ensures |Dedup(pairs)| == |pairs| <==> DistinctSources(pairs)
    ensures Dedup(pairs) == [] <==> pairs == []
    decreases |pairs|
  {
    CollapseValid(pairs);
    if pairs != [] {
      var n := |pairs| - 1;
      var prefix := pairs[..n];
      DedupSize(prefix);
      CollapseValid(prefix);
      var c := Collapse(prefix);
      var k := pairs[n].0;
      assert |Dedup(prefix)| == |c.keys|;
      if HasSource(prefix, k) {
        var j :| 0 <= j < |prefix| && prefix[j].0 == k;
        assert pairs[j].0 == pairs[n].0;
        assert |Collapse(pairs).keys| == |c.keys|;
      } else {
        assert |Collapse(pairs).keys| == |c.keys| + 1;
        if DistinctSources(prefix) {
          DistinctSnoc(pairs);
        }
        if DistinctSources(pairs) {
          DistinctLast(pairs);
        }
      }
    }
  }

  /** The dict's length, the size of its mapping, follows its listed keys. */
  lemma {:induction false} CollapseSizeAgrees(pairs: seq<Job>)
    ensures |Collapse(pairs).values| == |Collapse(pairs).keys|
    decreases |pairs|
  {
    if pairs != [] {
      var n := |pairs| - 1;
      CollapseSizeAgrees(pairs[..n]);
      CollapseValid(pairs[..n]);
    }
  }

  /** The de-duplicated list is built from the dict's items, so it is never
      shorter than the dict and the "deduplicated" log line never fires. */
  lemma DedupLogNeverFires(pairs: seq<Job>)
    ensures |Dedup(pairs)| == |Collapse(pairs).values|
    ensures !(|Dedup(pairs)| < |Collapse(pairs).values|)
  {
    CollapseValid(pairs);
    CollapseSizeAgrees(pairs);
  }

  /** A source not seen before keeps the sources distinct. */
  lemma DistinctSnoc(pairs: seq<Job>)
    requires pairs != []
    requires DistinctSources(pairs[..|pairs| - 1]) && !HasSource(pairs[..|pairs| - 1], pairs[|pairs| - 1].0)
    ensures DistinctSources(pairs)
  {
    var n := |pairs| - 1;
    var prefix := pairs[..n];
    forall i, j | 0 <= i < j < |pairs| ensures pairs[i].0 != pairs[j].0 {
      assert pairs[i] == prefix[i];
      if j < n { assert pairs[j] == prefix[j]; }
    }
  }

  /** The deduplication loop of `process_queue`. */
  method DedupBySource(pairs: seq<Job>) returns (unique: seq<Job>)
    ensures unique == Dedup(pairs)
  {
    var seen := Dict([], map[]);
    var i := 0;
    while i < |pairs|
      invariant 0 <= i <= |pairs|
      invariant seen == Collapse(pairs[..i])
      decreases |pairs| - i
    {
      assert pairs[..i + 1][..i] == pairs[..i];
      seen := seen.Assign(pairs[i].0, pairs[i].1);
      i := i + 1;
    }
    assert pairs[..i] == pairs;
    CollapseValid(pairs);
    unique := seen.Items();
  }

  // ---------------------------------------------------------------------
  // The watcher.

  /** The per-file observations for a batch, looked up by pair. */
  function Observe(batch: seq<Job>, observe: Job -> Observation): (obs: seq<Observation>)
    ensures |obs| == |batch|
  {
    seq(|batch|, i requires 0 <= i < |batch| => observe(batch[i]))
  }

  /** One `process_queue`: everything queued is drained, deduplicated by
      source, and processed as a batch when anything is left. */
  function DrainOp(cfg: Config, m: Tree, cache: set<(string, string)>, items: seq<Job>,
                   observe: Job -> Observation, now: int): BatchState
  {
    var batch := Dedup(items);
    if batch == [] then BatchState([], m, cache)
    else BatchOp(cfg, m, cache, batch, Observe(batch, observe), now)
  }

  /** A drain processes each queued source exactly once: one result per
      distinct source, and as many results as pairs when no source
      repeats. */
  lemma DrainProcessesEachSourceOnce(cfg: Config, m: Tree, cache: set<(string, string)>, items: seq<Job>,
                                     observe: Job -> Observation, now: int)
    ensures |DrainOp(cfg, m, cache, items, observe, now).results| == |Dedup(items)|
    ensures DistinctSources(items) ==> |DrainOp(cfg, m, cache, items, observe, now).results| == |items|
    ensures items == [] ==> DrainOp(cfg, m, cache, items, observe, now) == BatchState([], m, cache)
  {
    DedupSize(items);
  }

  class FileWatcher {
    const config: Config
    const processor: FileProcessor
    const queue: JobQueue

    constructor (config: Config, processor: FileProcessor)
      ensures this.config == config && this.processor == processor
      ensures fresh(queue) && queue.items == []
    {
      this.config := config;
      this.processor := processor;
      queue := new JobQueue();
    }

    /** `scan_initial_files`: every regular file of the walk is queued, and
        the count is the number queued. */
    method ScanInitialFiles(fs: FileSystem, listing: seq<WalkDir>) returns (count: nat)
      modifies queue
      ensures queue.items == old(queue.items)
              + ScanJobs(fs.entries, RequireFile, config.uncompressedPath, config.compressedPath, listing)
      ensures count == |ScanJobs(fs.entries, RequireFile, config.uncompressedPath, config.compressedPath, listing)|
    {
      count := ScanInto(queue, fs, RequireFile, config.uncompressedPath, config.compressedPath, listing);
    }

    /** `process_queue`, with the stability polls and encoder verdicts for
        each pair given by `observe`. */
    method ProcessQueue(fs: FileSystem, observe: Job -> Observation, now: int)
      modifies queue, fs, processor.compressor
      ensures queue.items == []
      ensures var b := DrainOp(processor.config, old(fs.entries), old(processor.compressor.cache), old(queue.items), observe, now);
        fs.entries == b.fs && processor.compressor.cache == b.cache
    {
      if queue.Empty() {
        return;
      }
      ghost var q0 := queue.items;
      var pairs: seq<Job> := [];
      while !queue.Empty()
        invariant pairs + queue.items == q0
        invariant fs.entries == old(fs.entries) && processor.compressor.cache == old(processor.compressor.cache)
        decreases |queue.items|
      {
        var pair := queue.GetNowait();
        if pair.None? {
          break;
        }
        pairs := pairs + [pair.value];
      }
      assert pairs == q0;
      var batch := DedupBySource(pairs);
      if batch != [] {
        var success, failed := processor.ProcessBatch(fs, batch, Observe(batch, observe), now);
      }
    }

    /** `_cleanup_empty_directories`; `aborted` where a listing raised, which
        the periodic task catches. */
    method CleanupEmptyDirectories(fs: FileSystem, roots: seq<string>) returns (aborted: bool)
      modifies fs
      ensures (aborted, fs.entries) == CleanupPassOp(old(fs.entries), config.uncompressedPath, roots)
    {
      aborted := RemoveEmptyDirs(fs, config.uncompressedPath, roots);
    }

    /** One round of `periodic_cleanup`: queue every listed path that still
        exists, then sweep empty directories. */
    method PeriodicCleanupOnce(fs: FileSystem, listing: seq<WalkDir>, roots: seq<string>)
      returns (count: nat, aborted: bool)
      modifies queue, fs
      ensures queue.items == old(queue.items)
              + ScanJobs(old(fs.entries), RequireExists, config.uncompressedPath, config.compressedPath, listing)
      ensures count == |ScanJobs(old(fs.entries), RequireExists, config.uncompressedPath, config.compressedPath, listing)|
      ensures (aborted, fs.entries) == CleanupPassOp(old(fs.entries), config.uncompressedPath, roots)
    {
      count := ScanInto(queue, fs, RequireExists, config.uncompressedPath, config.compressedPath, listing);
      aborted := CleanupEmptyDirectories(fs, roots);
    }
  }
}
