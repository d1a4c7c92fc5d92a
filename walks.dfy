/**
 * The directory walks both generations of the watcher make: the scans that
 * turn every listed file into a `(source, destination)` job, and the
 * bottom-up pass that removes empty directories. The listings `os.walk`
 * produces are inputs; every check the loops make on a listed path reads
 * the filesystem map at that moment.
 */
module Walks {
  import opened Wrappers
  import opened PathOps
  import opened Calendar
  import opened Fs
  import opened Jobs

  /** One directory as `os.walk` yields it: its path and the names of the
      non-directories listed in it. */
  datatype WalkDir = WalkDir(root: string, files: seq<string>)

  /** Where a file directly in the watched root goes: `dest/YYYY-MM/name`,
      bucketed by its modification time. */
  function MonthDest(destRoot: string, mtime: int, name: string): string {
    Join(Join(destRoot, MonthOf(mtime)), name)
  }

  /** A root-level destination is `name` inside the month directory, which
      is inside the destination root. */
  lemma MonthDestSplits(destRoot: string, mtime: int, name: string)
    requires destRoot != [] && destRoot[|destRoot| - 1] != '/'
    requires name != [] && NoSlash(name)
    ensures Basename(MonthDest(destRoot, mtime, name)) == name
    ensures Dirname(MonthDest(destRoot, mtime, name)) == Join(destRoot, MonthOf(mtime))
    ensures Dirname(Join(destRoot, MonthOf(mtime))) == destRoot
  {
    MonthOfShape(mtime);
    var month := MonthOf(mtime);
    assert month[6] != '/';
    JoinSplits(destRoot, month);
    var dir := Join(destRoot, month);
    assert dir == destRoot + "/" + month;
    assert dir[|dir| - 1] == month[6];
    JoinSplits(dir, name);
  }

  /** Which listed paths a scan queues: regular files only (the initial
      scan), anything that still exists (the periodic scan), or every
      listed name (the legacy initial scan). */
  datatype ScanRule = RequireFile | RequireExists | EveryListed

  predicate Admits(m: Tree, rule: ScanRule, path: string) {
    match rule
    case RequireFile => FileAt(m, path)
    case RequireExists => Present(m, path)
    case EveryListed => true
  }

  /** The job for file `name` of directory `dir`, or `None` when it is
      skipped. A file directly in the watched root is bucketed by month
      (an unreadable modification time skips it); anything else is
      mirrored by replacing every occurrence of the root. The legacy
      initial scan buckets only regular files and mirrors the rest. */
  function ScanOne(m: Tree, rule: ScanRule, root: string, destRoot: string, dir: string, name: string): Option<Job> {
    var path := Join(dir, name);
    if !Admits(m, rule, path) then None
    else if dir == root && (rule != EveryListed || FileAt(m, path)) then
      match MtimeOf(m, path)
      case None => None
      case Some(t) => Some((path, MonthDest(destRoot, t, name)))
    else Some((path, ReplaceAll(path, root, destRoot)))
  }

  function OptionToSeq(o: Option<Job>): seq<Job> {
    if o.Some? then [o.value] else []
  }

  /** The jobs for the files of one directory, in listing order. */
  function ScanFiles(m: Tree, rule: ScanRule, root: string, destRoot: string, dir: string, names: seq<string>): seq<Job>
    decreases |names|
  {
    if names == [] then []
    else
      var n := |names| - 1;
      ScanFiles(m, rule, root, destRoot, dir, names[..n]) + OptionToSeq(ScanOne(m, rule, root, destRoot, dir, names[n]))
  }

  /** The jobs a scan queues, directory by directory. */
  function ScanJobs(m: Tree, rule: ScanRule, root: string, destRoot: string, listing: seq<WalkDir>): seq<Job>
    decreases |listing|
  {
    if listing == [] then []
    else
      var n := |listing| - 1;
      ScanJobs(m, rule, root, destRoot, listing[..n]) + ScanFiles(m, rule, root, destRoot, listing[n].root, listing[n].files)
  }

  /** A listed path is skipped exactly when the rule does not admit it: the
      modification time of an existing path is always readable here. */
  lemma ScanOneSkipsExactly(m: Tree, rule: ScanRule, root: string, destRoot: string, dir: string, name: string)
    ensures ScanOne(m, rule, root, destRoot, dir, name).None? <==> !Admits(m, rule, Join(dir, name))
    ensures ScanOne(m, rule, root, destRoot, dir, name).Some? ==> ScanOne(m, rule, root, destRoot, dir, name).value.0 == Join(dir, name)
  {
  }

  /** The number of listed names of one directory a rule admits. */
  function AdmittedIn(m: Tree, rule: ScanRule, dir: string, names: seq<string>): nat
    decreases |names|
  {
    if names == [] then 0
    else
      var n := |names| - 1;
      AdmittedIn(m, rule, dir, names[..n]) + (if Admits(m, rule, Join(dir, names[n])) then 1 else 0)
  }

  /** The number of listed names a rule admits, over the whole walk. */
  function Admitted(m: Tree, rule: ScanRule, listing: seq<WalkDir>): nat
    decreases |listing|
  {
    if listing == [] then 0
    else
      var n := |listing| - 1;
      Admitted(m, rule, listing[..n]) + AdmittedIn(m, rule, listing[n].root, listing[n].files)
  }

  /** The number of names listed in the whole walk. */
  function Listed(listing: seq<WalkDir>): nat
    decreases |listing|
  {
    if listing == [] then 0 else Listed(listing[..|listing| - 1]) + |listing[|listing| - 1].files|
  }

  lemma {:induction false} ScanFilesCount(m: Tree, rule: ScanRule, root: string, destRoot: string, dir: string, names: seq<string>)
    ensures |ScanFiles(m, rule, root, destRoot, dir, names)| == AdmittedIn(m, rule, dir, names)
    decreases |names|
  {
    if names != [] {
      var n := |names| - 1;
      ScanFilesCount(m, rule, root, destRoot, dir, names[..n]);
      ScanOneSkipsExactly(m, rule, root, destRoot, dir, names[n]);
    }
  }

  /** One job per admitted listed name: so the count a scan returns is the
      number of jobs it queued. */
  lemma {:induction false} ScanJobsCount(m: Tree, rule: ScanRule, root: string, destRoot: string, listing: seq<WalkDir>)
    ensures |ScanJobs(m, rule, root, destRoot, listing)| == Admitted(m, rule, listing)
    decreases |listing|
  {
    if listing != [] {
      var n := |listing| - 1;
      ScanJobsCount(m, rule, root, destRoot, listing[..n]);
      ScanFilesCount(m, rule, root, destRoot, listing[n].root, listing[n].files);
    }
  }

  lemma {:induction false} EveryListedAdmitsAll(m: Tree, listing: seq<WalkDir>)
    ensures Admitted(m, EveryListed, listing) == Listed(listing)
    decreases |listing|
  {
    if listing != [] {
      var n := |listing| - 1;
      EveryListedAdmitsAll(m, listing[..n]);
      EveryListedAdmitsAllIn(m, listing[n].root, listing[n].files);
    }
  }

  lemma {:induction false} EveryListedAdmitsAllIn(m: Tree, dir: string, names: seq<string>)
    ensures AdmittedIn(m, EveryListed, dir, names) == |names|
    decreases |names|
  {
    if names != [] {
      EveryListedAdmitsAllIn(m, dir, names[..|names| - 1]);
    }
  }

  /** The legacy initial scan queues every listed name. */
  lemma LegacyScanQueuesAll(m: Tree, root: string, destRoot: string, listing: seq<WalkDir>)
    ensures |ScanJobs(m, EveryListed, root, destRoot, listing)| == Listed(listing)
  {
    ScanJobsCount(m, EveryListed, root, destRoot, listing);
    EveryListedAdmitsAll(m, listing);
  }

  /** Every queued source was admitted by the rule when it was checked. */
  lemma {:induction false} ScanJobsAdmitted(m: Tree, rule: ScanRule, root: string, destRoot: string, listing: seq<WalkDir>)
    ensures forall j :: j in ScanJobs(m, rule, root, destRoot, listing) ==> Admits(m, rule, j.0)
    decreases |listing|
  {
    if listing != [] {
      var n := |listing| - 1;
      ScanJobsAdmitted(m, rule, root, destRoot, listing[..n]);
      ScanFilesAdmitted(m, rule, root, destRoot, listing[n].root, listing[n].files);
    }
  }

  lemma {:induction false} ScanFilesAdmitted(m: Tree, rule: ScanRule, root: string, destRoot: string, dir: string, names: seq<string>)
    ensures forall j :: j in ScanFiles(m, rule, root, destRoot, dir, names) ==> Admits(m, rule, j.0)
    decreases |names|
  {
    if names != [] {
      var n := |names| - 1;
      ScanFilesAdmitted(m, rule, root, destRoot, dir, names[..n]);
    }
  }

  /** The destination a scan gives a listed file it queues. */
  lemma ScanOneDestination(m: Tree, rule: ScanRule, root: string, destRoot: string, dir: string, name: string)
    requires Admits(m, rule, Join(dir, name))
    ensures var path := Join(dir, name);
      var d := ScanOne(m, rule, root, destRoot, dir, name).value.1;
      && (dir == root && (rule != EveryListed || FileAt(m, path)) ==> d == MonthDest(destRoot, m[path].mtime, name))
      && (!(dir == root && (rule != EveryListed || FileAt(m, path))) ==> d == ReplaceAll(path, root, destRoot))
  {
  }

  // ---------------------------------------------------------------------
  // The bottom-up removal of empty directories.

  /** One pass over the directories `os.walk(top, topdown=False)` yields,
      deepest first: skip `top`; list each other directory (a listing
      error ends the pass, reported as `aborted`); remove it when the
      listing is empty, ignoring a failed removal. */
  function CleanupPassOp(m: Tree, top: string, roots: seq<string>): (r: (bool, Tree))
    decreases |roots|
  {
    if roots == [] then (false, m)
    else if roots[0] == top then CleanupPassOp(m, top, roots[1..])
    else match ListdirOp(m, roots[0])
      case None => (true, m)
      case Some(names) =>
        var m' := if names == {} then RmdirOp(m, roots[0]).GetOr(m) else m;
        CleanupPassOp(m', top, roots[1..])
  }

  /** The pass only deletes entries, and every entry it deletes is a
      directory it was given other than `top`. */
  lemma {:induction false} CleanupPassOnlyRemovesListedDirs(m: Tree, top: string, roots: seq<string>)
    ensures var r := CleanupPassOp(m, top, roots).1;
      && (forall k :: k in r ==> k in m && r[k] == m[k])
      && (forall k :: k in m && k !in r ==> k in roots && k != top && m[k].Dir?)
    decreases |roots|
  {
    if roots != [] {
      var d := roots[0];
      if d == top {
        CleanupPassOnlyRemovesListedDirs(m, top, roots[1..]);
      } else if ListdirOp(m, d).Some? {
        var names := ListdirOp(m, d).value;
        var m' := if names == {} then RmdirOp(m, d).GetOr(m) else m;
        CleanupPassOnlyRemovesListedDirs(m', top, roots[1..]);
      }
    }
  }

  /** The watched root survives the pass, and so does every regular file. */
  lemma CleanupPassKeepsTopAndFiles(m: Tree, top: string, roots: seq<string>, k: string)
    requires k in m && (k == top || m[k].File?)
    ensures k in CleanupPassOp(m, top, roots).1 && CleanupPassOp(m, top, roots).1[k] == m[k]
  {
    CleanupPassOnlyRemovesListedDirs(m, top, roots);
  }

  /** Removing one entry removes it from its directory's children. */
  lemma ChildrenAfterRemove(m: Tree, x: string, d: string)
    ensures Children(m - {x}, d) == Children(m, d) - {x}
  {
  }

  /** A directory the pass removes was empty when it was removed, and the
      pass only deletes, so nothing it leaves behind lies in a directory
      it removed. */
  lemma {:induction false} CleanupPassLeavesNoOrphans(m: Tree, top: string, roots: seq<string>)
    ensures var r := CleanupPassOp(m, top, roots).1;
      forall d :: d in m && d !in r ==> Children(r, d) == {}
    decreases |roots|
  {
    if roots != [] {
      var d0 := roots[0];
      if d0 == top {
        CleanupPassLeavesNoOrphans(m, top, roots[1..]);
      } else if ListdirOp(m, d0).Some? {
        var names := ListdirOp(m, d0).value;
        var m' := if names == {} then RmdirOp(m, d0).GetOr(m) else m;
        CleanupPassLeavesNoOrphans(m', top, roots[1..]);
        CleanupPassOnlyRemovesListedDirs(m', top, roots[1..]);
        if names == {} && RmdirOp(m, d0).Some? {
          ListdirEmpty(m, d0);
          var r := CleanupPassOp(m', top, roots[1..]).1;
          assert Children(r, d0) <= Children(m, d0);
        }
      }
    }
  }

  /** A chain of directories, deepest first, each the only entry of the
      next, with the deepest one empty. */
  predicate EmptyChain(m: Tree, chain: seq<string>) {
    (forall j :: 0 <= j < |chain| ==> DirAt(m, chain[j])) &&
    (|chain| > 0 ==> Children(m, chain[0]) == {}) &&
    (forall j :: 0 <= j < |chain| - 1 ==> Children(m, chain[j + 1]) == {chain[j]})
  }

  /** A walk the pass lists without error: every directory it yields other
      than `top` is a directory of the tree, and none is yielded twice. */
  predicate ListsCleanly(m: Tree, top: string, roots: seq<string>) {
    (forall i :: 0 <= i < |roots| ==> roots[i] == top || DirAt(m, roots[i])) &&
    (forall i, j :: 0 <= i < j < |roots| ==> roots[i] != roots[j])
  }

  /** The walk yields `chain[j]` at position `idx[j]`, in increasing
      positions. */
  predicate InOrderAt(chain: seq<string>, roots: seq<string>, idx: seq<int>) {
    |idx| == |chain| &&
    (forall j :: 0 <= j < |idx| ==> 0 <= idx[j] < |roots| && roots[idx[j]] == chain[j]) &&
    (forall i, j :: 0 <= i < j < |idx| ==> idx[i] < idx[j])
  }

  /** The same positions, one step further along the walk. */
  function Shift(idx: seq<int>): seq<int> {
    seq(|idx|, j requires 0 <= j < |idx| => idx[j] - 1)
  }

  /** Removing an entry outside the chain keeps the chain. */
  lemma RemoveKeepsChain(m: Tree, chain: seq<string>, x: string)
    requires EmptyChain(m, chain) && x !in chain
    ensures EmptyChain(m - {x}, chain)
  {
    forall j | 0 <= j < |chain| ensures Children(m - {x}, chain[j]) == Children(m, chain[j]) - {x} {
      ChildrenAfterRemove(m, x, chain[j]);
    }
  }

  /** Removing the deepest directory of the chain leaves the rest a chain. */
  lemma RemoveHeadKeepsChain(m: Tree, chain: seq<string>)
    requires EmptyChain(m, chain) && chain != []
    requires forall j :: 0 < j < |chain| ==> chain[j] != chain[0]
    ensures EmptyChain(m - {chain[0]}, chain[1..])
  {
    var d := chain[0];
    var m' := m - {d};
    var tail := chain[1..];
    forall j | 0 <= j < |tail| ensures DirAt(m', tail[j]) {
      assert DirAt(m, chain[j + 1]);
    }
    if |tail| > 0 {
      ChildrenAfterRemove(m, d, tail[0]);
    }
    forall j | 0 <= j < |tail| - 1 ensures Children(m', tail[j + 1]) == {tail[j]} {
      ChildrenAfterRemove(m, d, tail[j + 1]);
      assert Children(m, chain[j + 2]) == {chain[j + 1]};
    }
  }

  /** The walk and the tree one step further: the positions shift by one,
      and the rest of the walk still lists cleanly once `roots[0]` may have
      been removed. */
  lemma StepKeepsWalk(m: Tree, m': Tree, top: string, chain: seq<string>, roots: seq<string>, idx: seq<int>, n: nat)
    requires 0 < n <= |roots| && InOrderAt(chain, roots[..n], idx) && ListsCleanly(m, top, roots[..n])
    requires m' == m || m' == m - {roots[0]}
    requires forall j :: 0 <= j < |idx| ==> idx[j] != 0
    ensures InOrderAt(chain, roots[1..][..n - 1], Shift(idx))
    ensures ListsCleanly(m', top, roots[1..][..n - 1])
  {
    var pre := roots[..n];
    assert roots[1..][..n - 1] == pre[1..];
    forall i | 0 <= i < n - 1 ensures pre[1..][i] == top || DirAt(m', pre[1..][i]) {
      assert pre[i + 1] != pre[0];
    }
  }

  /** When the walk first yields the chain's deepest directory, that
      directory is removed and the rest of the chain and of the walk
      satisfy the same conditions one step on. */
  lemma HeadStep(m: Tree, top: string, chain: seq<string>, roots: seq<string>, idx: seq<int>, n: nat)
    requires EmptyChain(m, chain) && top !in chain && chain != []
    requires n <= |roots| && InOrderAt(chain, roots[..n], idx) && ListsCleanly(m, top, roots[..n])
    requires idx[0] == 0 && roots[0] != top
    ensures ListdirOp(m, roots[0]) == Some({}) && RmdirOp(m, roots[0]) == Some(m - {roots[0]})
    ensures EmptyChain(m - {roots[0]}, chain[1..]) && top !in chain[1..]
    ensures InOrderAt(chain[1..], roots[1..][..n - 1], Shift(idx[1..]))
    ensures ListsCleanly(m - {roots[0]}, top, roots[1..][..n - 1])
  {
    var pre := roots[..n];
    var d := roots[0];
    assert pre[0] == d && chain[0] == d;
    ListdirEmpty(m, d);
    forall j | 0 < j < |chain| ensures chain[j] != d {
      assert pre[idx[j]] == chain[j] && idx[j] > 0;
    }
    RemoveHeadKeepsChain(m, chain);
    var rest := idx[1..];
    assert InOrderAt(chain[1..], pre, rest);
    StepKeepsWalk(m, m - {d}, top, chain[1..], roots, rest, n);
  }

  /** When the walk yields a directory outside the chain first, whatever
      happens to it keeps the chain and the rest of the walk. */
  lemma SkipStep(m: Tree, m': Tree, top: string, chain: seq<string>, roots: seq<string>, idx: seq<int>, n: nat)
    requires EmptyChain(m, chain) && top !in chain && chain != []
    requires n <= |roots| && InOrderAt(chain, roots[..n], idx) && ListsCleanly(m, top, roots[..n])
    requires idx[0] != 0 || roots[0] == top
    requires m' == m || m' == m - {roots[0]}
    ensures EmptyChain(m', chain)
    ensures InOrderAt(chain, roots[1..][..n - 1], Shift(idx))
    ensures ListsCleanly(m', top, roots[1..][..n - 1])
  {
    var pre := roots[..n];
    var d := roots[0];
    assert pre[0] == d;
    forall j | 0 <= j < |chain| ensures chain[j] != d && idx[j] != 0 {
      assert pre[idx[j]] == chain[j];
      if idx[0] != 0 {
        assert idx[j] >= idx[0];
      }
    }
    if m' != m {
      RemoveKeepsChain(m, chain, d);
    }
    StepKeepsWalk(m, m', top, chain, roots, idx, n);
  }

  /** Walking bottom-up, a nested chain of directories that are empty but
      for the next one disappears entirely in one pass, wherever the walk
      yields its members, provided it lists cleanly up to the last one. */
  lemma {:induction false} ChainVanishes(m: Tree, top: string, chain: seq<string>, roots: seq<string>,
                                         idx: seq<int>, n: nat)
    requires EmptyChain(m, chain) && top !in chain
    requires n <= |roots| && InOrderAt(chain, roots[..n], idx) && ListsCleanly(m, top, roots[..n])
    ensures forall j :: 0 <= j < |chain| ==> chain[j] !in CleanupPassOp(m, top, roots).1
    decreases |roots|, 1
  {
    if chain != [] {
      if roots[0] != top && idx[0] == 0 {
        ChainHeadVanishes(m, top, chain, roots, idx, n);
      } else {
        ChainSkipsRoot(m, top, chain, roots, idx, n);
      }
    }
  }

  /** The walk yields the chain's deepest directory first: it is removed,
      and the rest of the chain goes with the rest of the walk. */
  lemma {:induction false} ChainHeadVanishes(m: Tree, top: string, chain: seq<string>, roots: seq<string>,
                                             idx: seq<int>, n: nat)
    requires EmptyChain(m, chain) && top !in chain && chain != []
    requires n <= |roots| && InOrderAt(chain, roots[..n], idx) && ListsCleanly(m, top, roots[..n])
    requires idx[0] == 0 && roots[0] != top
    ensures forall j :: 0 <= j < |chain| ==> chain[j] !in CleanupPassOp(m, top, roots).1
    decreases |roots|, 0
  {
    var d := roots[0];
    HeadStep(m, top, chain, roots, idx, n);
    var m' := m - {d};
    assert CleanupPassOp(m, top, roots) == CleanupPassOp(m', top, roots[1..]);
    ChainVanishes(m', top, chain[1..], roots[1..], Shift(idx[1..]), n - 1);
    CleanupPassOnlyRemovesListedDirs(m', top, roots[1..]);
    forall j | 0 < j < |chain| ensures chain[j] !in CleanupPassOp(m', top, roots[1..]).1 {
      assert chain[j] == chain[1..][j - 1];
    }
  }

  /** The walk first yields the top or a directory outside the chain:
      whatever happens to it, the chain goes with the rest of the walk. */
  lemma {:induction false} ChainSkipsRoot(m: Tree, top: string, chain: seq<string>, roots: seq<string>,
                                          idx: seq<int>, n: nat)
    requires EmptyChain(m, chain) && top !in chain && chain != []
    requires n <= |roots| && InOrderAt(chain, roots[..n], idx) && ListsCleanly(m, top, roots[..n])
    requires idx[0] != 0 || roots[0] == top
    ensures forall j :: 0 <= j < |chain| ==> chain[j] !in CleanupPassOp(m, top, roots).1
    decreases |roots|, 0
  {
    var d := roots[0];
    if d == top {
      SkipStep(m, m, top, chain, roots, idx, n);
      ChainVanishes(m, top, chain, roots[1..], Shift(idx), n - 1);
    } else {
      assert roots[..n][0] == d;
      var names := ListdirOp(m, d).value;
      var m' := if names == {} then RmdirOp(m, d).GetOr(m) else m;
      assert CleanupPassOp(m, top, roots) == CleanupPassOp(m', top, roots[1..]);
      SkipStep(m, m', top, chain, roots, idx, n);
      ChainVanishes(m', top, chain, roots[1..], Shift(idx), n - 1);
    }
  }

  // ---------------------------------------------------------------------
  // The loops.

  /** One more directory of the walk appends its files' jobs. */
  lemma ScanJobsStep(m: Tree, rule: ScanRule, root: string, destRoot: string, listing: seq<WalkDir>, i: int,
                     q0: seq<Job>, before: seq<Job>, after: seq<Job>)
    requires 0 <= i < |listing|
    requires before == q0 + ScanJobs(m, rule, root, destRoot, listing[..i])
    requires after == before + ScanFiles(m, rule, root, destRoot, listing[i].root, listing[i].files)
    ensures after == q0 + ScanJobs(m, rule, root, destRoot, listing[..i + 1])
    ensures |ScanJobs(m, rule, root, destRoot, listing[..i + 1])|
            == |ScanJobs(m, rule, root, destRoot, listing[..i])| + |ScanFiles(m, rule, root, destRoot, listing[i].root, listing[i].files)|
  {
    assert listing[..i + 1][..i] == listing[..i];
    AppendAssoc(q0, ScanJobs(m, rule, root, destRoot, listing[..i]), ScanFiles(m, rule, root, destRoot, listing[i].root, listing[i].files));
  }

  /** One more listed name appends its job, if it has one. */
  lemma ScanFilesStep(m: Tree, rule: ScanRule, root: string, destRoot: string, dir: string, names: seq<string>, j: int,
                      q0: seq<Job>, before: seq<Job>, after: seq<Job>)
    requires 0 <= j < |names|
    requires before == q0 + ScanFiles(m, rule, root, destRoot, dir, names[..j])
    requires after == before + OptionToSeq(ScanOne(m, rule, root, destRoot, dir, names[j]))
    ensures after == q0 + ScanFiles(m, rule, root, destRoot, dir, names[..j + 1])
    ensures |ScanFiles(m, rule, root, destRoot, dir, names[..j + 1])|
            == |ScanFiles(m, rule, root, destRoot, dir, names[..j])| + |OptionToSeq(ScanOne(m, rule, root, destRoot, dir, names[j]))|
  {
    assert names[..j + 1][..j] == names[..j];
    AppendAssoc(q0, ScanFiles(m, rule, root, destRoot, dir, names[..j]), OptionToSeq(ScanOne(m, rule, root, destRoot, dir, names[j])));
  }

  lemma AppendAssoc(a: seq<Job>, b: seq<Job>, c: seq<Job>)
    ensures (a + b) + c == a + (b + c)
  {
  }

  /** A scan: walk the listing, check each listed path against the rule,
      and queue a job for each admitted file; the result is the number of
      jobs queued. */
  method ScanInto(q: JobQueue, fs: FileSystem, rule: ScanRule, root: string, destRoot: string,
                  listing: seq<WalkDir>) returns (count: nat)
    modifies q
    ensures q.items == old(q.items) + ScanJobs(fs.entries, rule, root, destRoot, listing)
    ensures count == |ScanJobs(fs.entries, rule, root, destRoot, listing)|
  {
    ghost var q0 := q.items;
    ghost var m := fs.entries;
    count := 0;
    var i := 0;
    while i < |listing|
      invariant 0 <= i <= |listing|
      invariant q.items == q0 + ScanJobs(m, rule, root, destRoot, listing[..i])
      invariant count == |ScanJobs(m, rule, root, destRoot, listing[..i])|
      invariant fs.entries == m
      decreases |listing| - i
    {
      ghost var before := q.items;
      var found := ScanDirInto(q, fs, rule, root, destRoot, listing[i].root, listing[i].files);
      ScanJobsStep(m, rule, root, destRoot, listing, i, q0, before, q.items);
      count := count + found;
      i := i + 1;
    }
    assert listing[..i] == listing;
  }

  /** The inner loop of a scan, over the files of one directory. */
  method ScanDirInto(q: JobQueue, fs: FileSystem, rule: ScanRule, root: string, destRoot: string,
                     dir: string, names: seq<string>) returns (count: nat)
    modifies q
    ensures q.items == old(q.items) + ScanFiles(fs.entries, rule, root, destRoot, dir, names)
    ensures count == |ScanFiles(fs.entries, rule, root, destRoot, dir, names)|
  {
    ghost var q0 := q.items;
    ghost var m := fs.entries;
    count := 0;
    var j := 0;
    while j < |names|
      invariant 0 <= j <= |names|
      invariant q.items == q0 + ScanFiles(m, rule, root, destRoot, dir, names[..j])
      invariant count == |ScanFiles(m, rule, root, destRoot, dir, names[..j])|
      invariant fs.entries == m
      decreases |names| - j
    {
      ghost var before := q.items;
      var job := ScanEntry(fs, rule, root, destRoot, dir, names[j]);
      var queued := PutIfSome(q, job);
      ScanFilesStep(m, rule, root, destRoot, dir, names, j, q0, before, q.items);
      count := count + queued;
      j := j + 1;
    }
    assert names[..j] == names;
  }

  /** Queue the job, if there is one; the result is the number queued. */
  method PutIfSome(q: JobQueue, job: Option<Job>) returns (queued: nat)
    modifies q
    ensures q.items == old(q.items) + OptionToSeq(job)
    ensures queued == |OptionToSeq(job)|
  {
    queued := 0;
    if job.Some? {
      q.PutNowait(job.value);
      queued := 1;
    }
  }

  /** The body of a scan's inner loop for one listed name: the job to queue,
      if any. */
  method ScanEntry(fs: FileSystem, rule: ScanRule, root: string, destRoot: string, dir: string, name: string)
    returns (job: Option<Job>)
    ensures job == ScanOne(fs.entries, rule, root, destRoot, dir, name)
  {
    var path := Join(dir, name);
    var admitted := match rule
      case RequireFile => fs.IsFile(path)
      case RequireExists => fs.Exists(path)
      case EveryListed => true;
    if !admitted {
      return None;
    }
    if dir == root && (rule != EveryListed || fs.IsFile(path)) {
      var mtime := fs.GetMtime(path);
      if mtime.None? {
        return None;
      }
      return Some((path, MonthDest(destRoot, mtime.value, name)));
    }
    return Some((path, ReplaceAll(path, root, destRoot)));
  }

  /** The bottom-up pass over the walked directories: `aborted` where a
      listing raised, which ends the pass. */
  method RemoveEmptyDirs(fs: FileSystem, top: string, roots: seq<string>) returns (aborted: bool)
    modifies fs
    ensures (aborted, fs.entries) == CleanupPassOp(old(fs.entries), top, roots)
  {
    ghost var m0 := fs.entries;
    var i := 0;
    while i < |roots|
      invariant 0 <= i <= |roots|
      invariant CleanupPassOp(m0, top, roots) == CleanupPassOp(fs.entries, top, roots[i..])
      decreases |roots| - i
    {
      var d := roots[i];
      assert roots[i..][0] == d && roots[i..][1..] == roots[i + 1..];
      if d != top {
        var names := fs.Listdir(d);
        if names.None? {
          return true;
        }
        if names.value == {} {
          var removed := fs.Rmdir(d);
        }
      }
      i := i + 1;
    }
    return false;
  }
}
