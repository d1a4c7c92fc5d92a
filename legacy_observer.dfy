/**
 * The older scan and cleanup loops (`legacy/observer.py`): the start-up
 * scan, which queues every listed file, and one round of the periodic
 * task, which queues every listed path that still exists and then removes
 * empty directories bottom-up. A listing error in that sweep is not caught
 * and ends the periodic task.
 */
module LegacyObserving {
  import opened Wrappers
  import opened PathOps
  import opened Fs
  import opened Jobs
  import opened Walks

  /** The periodic scan compares the directory with the root but does not
      test for a regular file, so a path directly in the root that is now a
      directory still gets a month bucket from its own modification time,
      where the start-up scan of the current watcher would skip it. */
  lemma PeriodicRootHasNoFileTest(m: Tree, root: string, destRoot: string, name: string)
    requires DirAt(m, Join(root, name))
    ensures ScanOne(m, RequireExists, root, destRoot, root, name)
            == Some((Join(root, name), MonthDest(destRoot, m[Join(root, name)].mtime, name)))
    ensures ScanOne(m, RequireFile, root, destRoot, root, name) == None
  {
  }

  /** The start-up scan queues a listed path whatever it now is, even when
      it has gone: only a regular file directly in the root is dated. */
  lemma InitialScanQueuesGonePaths(m: Tree, root: string, destRoot: string, dir: string, name: string)
    requires !Present(m, Join(dir, name))
    ensures ScanOne(m, EveryListed, root, destRoot, dir, name)
            == Some((Join(dir, name), ReplaceAll(Join(dir, name), root, destRoot)))
  {
  }

  /** `initial_file_handle(uncompressed, compressed, queue)` up to handing
      the queue on: every listed file is queued, and the count is the
      number queued, which is the number of listed files. */
  method InitialFileHandle(q: JobQueue, fs: FileSystem, uncompressedPath: string, compressedPath: string,
                           listing: seq<WalkDir>) returns (fileCount: nat)
    modifies q
    ensures q.items == old(q.items) + ScanJobs(fs.entries, EveryListed, uncompressedPath, compressedPath, listing)
    ensures fileCount == |ScanJobs(fs.entries, EveryListed, uncompressedPath, compressedPath, listing)|
    ensures fileCount == Listed(listing)
  {
    fileCount := ScanInto(q, fs, EveryListed, uncompressedPath, compressedPath, listing);
    LegacyScanQueuesAll(fs.entries, uncompressedPath, compressedPath, listing);
  }

  /** One round of the legacy `periodic_cleanup`: queue every listed path
      that still exists, then remove empty directories other than the root,
      deepest first. `crashed` where a listing raised, which ends the
      periodic task for good. */
  method PeriodicCleanupOnce(q: JobQueue, fs: FileSystem, dirPath: string, newDirPath: string,
                             listing: seq<WalkDir>, roots: seq<string>) returns (crashed: bool)
    modifies q, fs
    ensures q.items == old(q.items) + ScanJobs(old(fs.entries), RequireExists, dirPath, newDirPath, listing)
    ensures (crashed, fs.entries) == CleanupPassOp(old(fs.entries), dirPath, roots)
  {
    var _ := ScanInto(q, fs, RequireExists, dirPath, newDirPath, listing);
    crashed := RemoveEmptyDirs(fs, dirPath, roots);
  }
}
