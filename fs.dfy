/**
 * An abstract filesystem: a map from literal path strings to entries, and
 * the `os` / `os.path` calls the pipeline makes on it (`exists`, `isfile`,
 * `isdir`, `getsize`, `getmtime`, `listdir`, `remove`, `rmdir`, `rename`,
 * `makedirs`). Each call is a function on the map, and `FileSystem` is the
 * mutable object whose methods perform them.
 */
module Fs {
  import opened Wrappers
  import opened PathOps

  /** A regular file with its size in bytes, or a directory. Both carry a
      modification time (integer seconds). */
  datatype Entry = File(size: nat, mtime: int) | Dir(mtime: int)

  type Tree = map<string, Entry>

  /** `os.path.exists`: the empty path never exists. */
  predicate Present(m: Tree, p: string) {
    p != [] && p in m
  }

  /** `os.path.isfile` */
  predicate FileAt(m: Tree, p: string) {
    Present(m, p) && m[p].File?
  }

  /** `os.path.isdir` */
  predicate DirAt(m: Tree, p: string) {
    Present(m, p) && m[p].Dir?
  }

  /** `os.path.getsize`; a missing path raises. The size of a directory is
      not modelled and also reads as an error. */
  function SizeOf(m: Tree, p: string): Option<nat> {
    if FileAt(m, p) then Some(m[p].size) else None
  }

  /** `os.path.getmtime`; a missing path raises. */
  function MtimeOf(m: Tree, p: string): Option<int> {
    if Present(m, p) then Some(m[p].mtime) else None
  }

  /** The entries whose parent directory is `d`. */
  function Children(m: Tree, d: string): set<string> {
    set k | k in m && k != [] && k != d && Dirname(k) == d
  }

  /** `os.listdir`: the names in a directory; anything else raises. */
  function ListdirOp(m: Tree, d: string): Option<set<string>> {
    if DirAt(m, d) then Some(set k | k in Children(m, d) :: Basename(k)) else None
  }

  /** A listing is empty exactly when the directory has no children. */
  lemma ListdirEmpty(m: Tree, d: string)
    requires DirAt(m, d)
    ensures ListdirOp(m, d) == Some({}) <==> Children(m, d) == {}
  {
    if Children(m, d) != {} {
      var k :| k in Children(m, d);
      assert Basename(k) in ListdirOp(m, d).value;
    } else {
      assert forall x :: x !in ListdirOp(m, d).value;
      assert ListdirOp(m, d).value == {};
    }
  }

  /** The directory `mkdir` and `rename` need for `p`: the working directory
      (always there) when `p` has no slash, else `dirname(p)`. */
  predicate ParentReady(m: Tree, p: string) {
    Dirname(p) == [] || DirAt(m, Dirname(p))
  }

  /** `os.remove`: regular files only. */
  function RemoveOp(m: Tree, p: string): Option<Tree> {
    if FileAt(m, p) then Some(m - {p}) else None
  }

  /** `os.rmdir`: empty directories only. */
  function RmdirOp(m: Tree, d: string): Option<Tree> {
    if DirAt(m, d) && Children(m, d) == {} then Some(m - {d}) else None
  }

  /** `os.rename` of a regular file: the destination may be an existing
      file (replaced) but not a directory, and its parent must be a
      directory. Renaming a path onto itself changes nothing. */
  function RenameOp(m: Tree, src: string, dst: string): Option<Tree> {
    if !FileAt(m, src) || dst == [] || DirAt(m, dst) || !ParentReady(m, dst) then None
    else if src == dst then Some(m)
    else Some((m - {src})[dst := m[src]])
  }

  /** `os.mkdir` */
  function MkdirOp(m: Tree, d: string, now: int): Option<Tree> {
    if d != [] && !Present(m, d) && ParentReady(m, d) then Some(m[d := Dir(now)]) else None
  }

  /** The dirname of a path with a non-empty basename is strictly shorter. */
  lemma DirnameShorter(p: string)
    requires Basename(p) != []
    ensures |Dirname(p)| < |p|
  {
  }

  /** No entry present before is lost or changed, and every new entry is a
      directory. */
  predicate Grows(m: Tree, m': Tree) {
    (forall k :: k in m ==> k in m' && m'[k] == m[k]) &&
    (forall k :: k in m' && k !in m ==> m'[k].Dir?)
  }

  /** `os.makedirs(d, exist_ok)`: create the missing ancestors first (an
      ancestor that cannot be made is an error), stop after the ancestors
      when the last component is `.`, then `mkdir(d)`; with `exist_ok` an
      existing directory is not an error. Returns whether it succeeded and
      the tree afterwards, which keeps the ancestors made before an error. */
  function MakedirsOp(m: Tree, d: string, existOk: bool, now: int): (r: (bool, Tree))
    ensures Grows(m, r.1)
    ensures r.0 && Basename(d) != "." ==> DirAt(r.1, d)
    decreases |d|
  {
    var head := Dirname(d);
    var tail := Basename(d);
    if head != [] && tail != [] && !Present(m, head) then
      DirnameShorter(d);
      var sub := MakedirsOp(m, head, existOk, now);
      if !sub.0 then sub
      else if tail == "." then (true, sub.1)
      else MkdirOrExisting(sub.1, d, existOk, now)
    else MkdirOrExisting(m, d, existOk, now)
  }

  /** The final `mkdir` of `makedirs`, where an existing directory counts as
      success only under `exist_ok`. */
  function MkdirOrExisting(m: Tree, d: string, existOk: bool, now: int): (r: (bool, Tree))
    ensures Grows(m, r.1)
    ensures r.0 ==> DirAt(r.1, d)
    ensures r.0 <==> MkdirOp(m, d, now).Some? || (existOk && DirAt(m, d))
  {
    match MkdirOp(m, d, now)
    case Some(m') => (true, m')
    case None => (existOk && DirAt(m, d), m)
  }

  /** A successful `makedirs` leaves every path before it in place, and the
      only paths it adds are `d` and ancestors of `d`. */
  lemma {:induction false} MakedirsAddsAncestors(m: Tree, d: string, existOk: bool, now: int, k: string)
    requires k in MakedirsOp(m, d, existOk, now).1 && k !in m
    ensures IsPrefix(k, d)
    decreases |d|
  {
    var head := Dirname(d);
    var tail := Basename(d);
    if head != [] && tail != [] && !Present(m, head) {
      DirnameShorter(d);
      var sub := MakedirsOp(m, head, existOk, now);
      if k in sub.1 {
        MakedirsAddsAncestors(m, head, existOk, now, k);
        assert IsPrefix(head, d);
        assert d[..|k|] == head[..|k|];
      }
    }
  }

  /** Removing a file keeps every other entry. */
  lemma RemoveFrame(m: Tree, p: string)
    requires FileAt(m, p)
    ensures RemoveOp(m, p).Some?
    ensures p !in RemoveOp(m, p).value
    ensures forall k :: k in m && k != p ==> k in RemoveOp(m, p).value && RemoveOp(m, p).value[k] == m[k]
  {
  }

  /** A rename moves the source entry to the destination and keeps every
      other entry. */
  lemma RenameMoves(m: Tree, src: string, dst: string)
    requires RenameOp(m, src, dst).Some? && src != dst
    ensures src !in RenameOp(m, src, dst).value
    ensures RenameOp(m, src, dst).value[dst] == m[src]
    ensures forall k :: k in m && k != src && k != dst ==> k in RenameOp(m, src, dst).value && RenameOp(m, src, dst).value[k] == m[k]
  {
  }

  /** The mutable filesystem the pipeline acts on. */
  class FileSystem {
    var entries: Tree

    constructor (init: Tree)
      ensures entries == init
    {
      entries := init;
    }

    function Exists(p: string): bool
      reads this
    {
      Present(entries, p)
    }

    function IsFile(p: string): bool
      reads this
    {
      FileAt(entries, p)
    }

    function IsDir(p: string): bool
      reads this
    {
      DirAt(entries, p)
    }

    function GetSize(p: string): Option<nat>
      reads this
    {
      SizeOf(entries, p)
    }

    function GetMtime(p: string): Option<int>
      reads this
    {
      MtimeOf(entries, p)
    }

    function Listdir(d: string): Option<set<string>>
      reads this
    {
      ListdirOp(entries, d)
    }

    /** `os.remove`; `false` where Python raises. */
    method Remove(p: string) returns (ok: bool)
      modifies this
      ensures ok == RemoveOp(old(entries), p).Some?
      ensures entries == RemoveOp(old(entries), p).GetOr(old(entries))
    {
      var r := RemoveOp(entries, p);
      ok := r.Some?;
      entries := r.GetOr(entries);
    }

    /** `os.rmdir`; `false` where Python raises. */
    method Rmdir(d: string) returns (ok: bool)
      modifies this
      ensures ok == RmdirOp(old(entries), d).Some?
      ensures entries == RmdirOp(old(entries), d).GetOr(old(entries))
    {
      var r := RmdirOp(entries, d);
      ok := r.Some?;
      entries := r.GetOr(entries);
    }

    /** `os.rename`; `false` where Python raises. */
    method Rename(src: string, dst: string) returns (ok: bool)
      modifies this
      ensures ok == RenameOp(old(entries), src, dst).Some?
      ensures entries == RenameOp(old(entries), src, dst).GetOr(old(entries))
    {
      var r := RenameOp(entries, src, dst);
      ok := r.Some?;
      entries := r.GetOr(entries);
    }

    /** `os.makedirs`; `false` where Python raises, with the ancestors made
        so far left in place. */
    method Makedirs(d: string, existOk: bool, now: int) returns (ok: bool)
      modifies this
      ensures (ok, entries) == MakedirsOp(old(entries), d, existOk, now)
    {
      var r := MakedirsOp(entries, d, existOk, now);
      ok := r.0;
      entries := r.1;
    }

    /** Writing a file of the given size at `p`, as an encoder does; it fails
        when `p` is a directory or its parent is not one. */
    method WriteFile(p: string, size: nat, now: int) returns (ok: bool)
      modifies this
      ensures ok == (p != [] && !DirAt(old(entries), p) && ParentReady(old(entries), p))
      ensures entries == if ok then old(entries)[p := File(size, now)] else old(entries)
    {
      ok := p != [] && !DirAt(entries, p) && ParentReady(entries, p);
      if ok {
        entries := entries[p := File(size, now)];
      }
    }
  }
}
