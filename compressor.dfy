/**
 * The decisions `ImageCompressor` makes around the encoder: the `.webp`
 * destination name, the should-compress rule, and the `(source, dest)`
 * operation cache consulted before the encoder runs. The encoder itself is
 * an oracle: its verdict for a call is an input.
 */
module Compression {
  import opened Wrappers
  import opened PathOps
  import opened Fs

  /** What the encoder would do if called: write a WebP of the given size
      at the destination, or fail. */
  datatype CodecResult = Encoded(size: nat) | CodecFailed

  /** `_ensure_webp_extension`: the `splitext` base with `.webp` appended. */
  function EnsureWebpExtension(p: string): (r: string)
    ensures EndsWith(r, ".webp")
  {
    Splitext(p).0 + ".webp"
  }

  /** The extension that is dropped starts with a dot, so the result is the
      path with at most one trailing extension replaced. */
  lemma EnsureWebpReplacesExtension(p: string)
    ensures exists ext :: p == Splitext(p).0 + ext && (ext == [] || ext[0] == '.')
  {
    SplitextParts(p);
    assert p == Splitext(p).0 + Splitext(p).1;
  }

  /** `test` followed by a one-dot extension has base `test`. */
  lemma SplitextOfTest(ext: string)
    requires |ext| > 0 && ext[0] == '.'
    requires forall i :: 0 < i < |ext| ==> ext[i] != '/' && ext[i] != '.'
    ensures Splitext("test" + ext).0 == "test"
  {
    var p := "test" + ext;
    assert forall k :: 4 < k < |p| ==> p[k] == ext[k - 4];
    LastIndexOfIs(p, '/', -1);
    LastIndexOfIs(p, '.', 4);
    assert HasNonDotIn(p, 0, 4) by { assert p[0] != '.'; }
  }

  /** `test.jpg` becomes `test.webp`, and `test.webp` is left as it is. */
  lemma EnsureWebpOfTestNames()
    ensures EnsureWebpExtension("test.jpg") == "test.webp"
    ensures EnsureWebpExtension("test.webp") == "test.webp"
  {
    assert "test.jpg" == "test" + ".jpg";
    assert "test.webp" == "test" + ".webp";
    SplitextOfTest(".jpg");
    SplitextOfTest(".webp");
  }

  lemma EnsureWebpInSubdirectory()
    ensures EnsureWebpExtension("path/to/file.jpeg") == "path/to/file.webp"
  {
    var p := "path/to/file.jpeg";
    LastIndexOfIs(p, '/', 7);
    LastIndexOfIs(p, '.', 12);
    assert HasNonDotIn(p, 8, 12) by { assert p[8] != '.'; }
    assert Splitext(p).0 == "path/to/file";
    assert "path/to/file" + ".webp" == "path/to/file.webp";
  }

  /** Some character of `s` is not a dot. */
  predicate HasNonDot(s: string) {
    exists k :: 0 <= k < |s| && s[k] != '.'
  }

  /** A dot followed by neither dots nor slashes: an extension `splitext`
      will split off again. */
  predicate PlainExtension(ext: string) {
    ext != [] && ext[0] == '.' && forall j :: 0 < j < |ext| ==> ext[j] != '.' && ext[j] != '/'
  }

  /** Appending a plain extension to a path whose last component is not
      all dots gives a path whose `splitext` base is that path again. */
  lemma SplitextOfAppended(base: string, ext: string)
    requires PlainExtension(ext)
    requires HasNonDotIn(base, LastIndexOf(base, '/') + 1, |base|)
    ensures Splitext(base + ext).0 == base
  {
    var q := base + ext;
    var sepB := LastIndexOf(base, '/');
    LastIndexOfAppend(base, ext, '/');
    forall j | |base| < j < |q| ensures q[j] != '.' {
      assert q[j] == ext[j - |base|];
    }
    LastIndexOfIs(q, '.', |base|);
    var k :| sepB + 1 <= k < |base| && base[k] != '.';
    assert q[k] == base[k];
    assert HasNonDotIn(q, sepB + 1, |base|);
    assert q[..|base|] == base;
  }

  /** Renaming to `.webp` twice is renaming once, provided the file name
      left after dropping the extension is not made of dots only: a name
      such as `.webp` has no extension in `splitext`'s view. */
  lemma EnsureWebpIdempotent(p: string)
    requires HasNonDot(Basename(Splitext(p).0))
    ensures EnsureWebpExtension(EnsureWebpExtension(p)) == EnsureWebpExtension(p)
  {
    var base := Splitext(p).0;
    var sepB := LastIndexOf(base, '/');
    var k :| 0 <= k < |Basename(base)| && Basename(base)[k] != '.';
    assert base[sepB + 1 + k] != '.';
    assert HasNonDotIn(base, sepB + 1, |base|);
    assert PlainExtension(".webp");
    SplitextOfAppended(base, ".webp");
  }

  /** Without that proviso the rename is not idempotent: a destination
      ending in a slash becomes `dir/.webp`, and then `dir/.webp.webp`. */
  lemma EnsureWebpNotIdempotentOnEmptyName()
    ensures EnsureWebpExtension("dir/") == "dir/.webp"
    ensures EnsureWebpExtension("dir/.webp") == "dir/.webp.webp"
  {
    LastIndexOfIs("dir/", '/', 3);
    LastIndexOfIs("dir/", '.', -1);
    var q := "dir/.webp";
    LastIndexOfIs(q, '/', 3);
    LastIndexOfIs(q, '.', 4);
    assert !HasNonDotIn(q, 4, 4);
  }

  /** The lower-cased path ends in `.jpg`, `.jpeg` or `.png`. */
  predicate HasImageExtension(p: string) {
    var l := Lower(p);
    EndsWith(l, ".jpg") || EndsWith(l, ".jpeg") || EndsWith(l, ".png")
  }

  /** `should_compress`: an image extension, and a readable size of at
      least `minFileSizeKb` KiB. */
  predicate ShouldCompress(m: Tree, p: string, minFileSizeKb: int) {
    HasImageExtension(p) &&
    match SizeOf(m, p)
    case None => false
    case Some(size) => !(size < minFileSizeKb * 1024)
  }

  /** The three ways `should_compress` says no, and the threshold itself
      compressing. */
  lemma ShouldCompressRule(m: Tree, p: string, minFileSizeKb: int)
    ensures !HasImageExtension(p) ==> !ShouldCompress(m, p, minFileSizeKb)
    ensures !FileAt(m, p) ==> !ShouldCompress(m, p, minFileSizeKb)
    ensures FileAt(m, p) && m[p].size < minFileSizeKb * 1024 ==> !ShouldCompress(m, p, minFileSizeKb)
    ensures HasImageExtension(p) && FileAt(m, p) && m[p].size == minFileSizeKb * 1024 ==> ShouldCompress(m, p, minFileSizeKb)
  {
  }

  /** Upper-case extensions count, other extensions do not. */
  lemma ImageExtensionSamples()
    ensures HasImageExtension("a/PHOTO.JPG")
    ensures HasImageExtension("b.png")
    ensures !HasImageExtension("doc.txt")
  {
    UpperCaseJpgIsImage();
    PngIsImage();
    TxtIsNotImage();
  }

  lemma UpperCaseJpgIsImage()
    ensures HasImageExtension("a/PHOTO.JPG")
  {
    assert Lower("a/PHOTO.JPG") == "a/photo.jpg";
  }

  lemma PngIsImage()
    ensures HasImageExtension("b.png")
  {
    assert Lower("b.png") == "b.png";
  }

  lemma TxtIsNotImage()
    ensures !HasImageExtension("doc.txt")
  {
    var l := Lower("doc.txt");
    assert l == "doc.txt";
    assert l[|l| - 4..] == ".txt";
  }

  /** What `compress` leaves behind. */
  datatype CompressStep = CompressStep(ok: bool, fs: Tree, cache: set<(string, string)>)

  /** `_compress_sync` with the encoder's verdict given: a missing source
      fails; an encoded image is written at the destination when that is
      possible, and the call fails otherwise. */
  function EncodeOp(m: Tree, source: string, destWebp: string, codec: CodecResult, now: int): (bool, Tree) {
    if !Present(m, source) then (false, m)
    else match codec
      case CodecFailed => (false, m)
      case Encoded(size) =>
        if destWebp != [] && !DirAt(m, destWebp) && ParentReady(m, destWebp)
        then (true, m[destWebp := File(size, now)])
        else (false, m)
  }

  /** `compress`: a cached `(source, dest)` pair answers `true` at once;
      otherwise the pair is cached first and the encoder's verdict on the
      `.webp` destination is the answer. */
  function CompressOp(m: Tree, cache: set<(string, string)>, source: string, dest: string,
                      codec: CodecResult, now: int): CompressStep
  {
    if (source, dest) in cache then CompressStep(true, m, cache)
    else
      var r := EncodeOp(m, source, EnsureWebpExtension(dest), codec, now);
      CompressStep(r.0, r.1, cache + {(source, dest)})
  }

  /** The pair is always in the cache afterwards, and nothing else is
      added. */
  lemma CompressRecordsKey(m: Tree, cache: set<(string, string)>, source: string, dest: string, codec: CodecResult, now: int)
    ensures CompressOp(m, cache, source, dest, codec, now).cache == cache + {(source, dest)}
  {
  }

  /** A cached pair answers `true` and touches nothing, whatever the
      encoder would have done. */
  lemma CompressCachedIsTrue(m: Tree, cache: set<(string, string)>, source: string, dest: string, codec: CodecResult, now: int)
    requires (source, dest) in cache
    ensures CompressOp(m, cache, source, dest, codec, now) == CompressStep(true, m, cache)
  {
  }

  /** An uncached call answers what the encoder answers, and on success the
      WebP file is the only change. */
  lemma CompressForwardsVerdict(m: Tree, cache: set<(string, string)>, source: string, dest: string, codec: CodecResult, now: int)
    requires (source, dest) !in cache && Present(m, source)
    ensures var r := CompressOp(m, cache, source, dest, codec, now);
      var w := EnsureWebpExtension(dest);
      && (r.ok <==> codec.Encoded? && !DirAt(m, w) && ParentReady(m, w))
      && (r.ok ==> r.fs == m[w := File(codec.size, now)])
      && (!r.ok ==> r.fs == m)
  {
    assert EnsureWebpExtension(dest) != [];
  }

  /** Compression touches the filesystem only at the `.webp` destination:
      every other entry is kept as it was and nothing else appears. */
  lemma CompressOnlyWritesWebp(m: Tree, cache: set<(string, string)>, source: string, dest: string, codec: CodecResult, now: int)
    ensures var r := CompressOp(m, cache, source, dest, codec, now);
      && (forall k :: k in m ==> k in r.fs)
      && (forall k :: k in m && k != EnsureWebpExtension(dest) ==> r.fs[k] == m[k])
      && (forall k :: k in r.fs && k !in m ==> k == EnsureWebpExtension(dest))
  {
  }

  /** A failed compression still caches its pair, so repeating the same
      request answers `true` although no WebP file was written. */
  lemma FailureThenCachedSuccess(m: Tree, cache: set<(string, string)>, source: string, dest: string,
                                 codec2: CodecResult, now: int)
    requires (source, dest) !in cache
    ensures var r1 := CompressOp(m, cache, source, dest, CodecFailed, now);
      var r2 := CompressOp(r1.fs, r1.cache, source, dest, codec2, now);
      !r1.ok && r1.fs == m && r2.ok && r2.fs == m
  {
  }

  /** The compressor with its operation cache. The cache's time-to-live is
      modelled by explicit expiry. */
  class ImageCompressor {
    var cache: set<(string, string)>

    constructor ()
      ensures cache == {}
    {
      cache := {};
    }

    /** `compress(source, dest)` with the encoder's verdict given. */
    method Compress(fs: FileSystem, source: string, dest: string, codec: CodecResult, now: int) returns (ok: bool)
      modifies this, fs
      ensures CompressStep(ok, fs.entries, cache) == CompressOp(old(fs.entries), old(cache), source, dest, codec, now)
    {
      var key := (source, dest);
      if key in cache {
        return true;
      }
      cache := cache + {key};
      var destWebp := EnsureWebpExtension(dest);
      if !fs.Exists(source) {
        return false;
      }
      match codec
      case CodecFailed =>
        ok := false;
      case Encoded(size) =>
        if destWebp != [] && !fs.IsDir(destWebp) && ParentReady(fs.entries, destWebp) {
          ok := fs.WriteFile(destWebp, size, now);
        } else {
          ok := false;
        }
    }

    /** Entries whose time-to-live has run out leave the cache. */
    method Expire(expired: set<(string, string)>)
      modifies this
      ensures cache == old(cache) - expired
    {
      cache := cache - expired;
    }
  }
}
