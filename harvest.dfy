/**
 * One call of `scanDirectory`, as functions over an in-memory directory
 * tree, and what the watermark scheme guarantees about it.
 *
 * The state a call reads and writes is the pair of globals `last_scan_time`
 * (the threshold a file's birth time must exceed) and `latest_time_scanned`
 * (the watermark the scan started from, raised to the birth time of each
 * newer file it copies), together with the log of
 * copies made so far. A directory's children are processed in listing order;
 * a subdirectory is scanned by a recursive call that, like every call, ends
 * by raising `last_scan_time` to `latest_time_scanned`, so later siblings are
 * compared with the raised threshold.
 */
module Harvest {
  import opened Wrappers
  import opened Names

  /** A directory entry as `readdirSync(..., { withFileTypes: true })` reports it. */
  datatype Entry =
    | Dir(name: string, children: seq<Entry>)   // isDirectory()
    | File(name: string, birth: int)            // isFile(); birth is statSync's birthtimeMs
    | Other(name: string)                       // symbolic links, sockets, devices, ...

  /**
   * One `copyFileSync(source, dest)`. The birth time of the source is kept
   * beside the two paths so that properties of the watermark can speak of it.
   */
  datatype Copy = Copy(source: string, dest: string, birth: int)

  /** `last_scan_time`, `latest_time_scanned` and the copies made so far. */
  datatype State = State(last: int, latest: int, copies: seq<Copy>)

  /** The name of the directories the scan never enters. */
  const Thumbnails := "thumbnails"

  /** The relation between the two globals that setup establishes and every scan keeps. */
  predicate Valid(s: State) {
    s.last <= s.latest
  }

  // ---------------------------------------------------------------------------
  // the scan

  /** `scanDirectory(dir, outDir)` on a directory whose listing is `listing`. */
  function ScanDir(s: State, dir: string, listing: seq<Entry>, outDir: string, now: nat -> int): State
    decreases listing, 2
  {
    var t := ScanEntries(s, dir, listing, |listing|, outDir, now);
    if t.latest != t.last then t.(last := t.latest) else t
  }

  /** The state after the loop of `scanDirectory` has handled listing[..n]. */
  function ScanEntries(s: State, dir: string, listing: seq<Entry>, n: nat, outDir: string, now: nat -> int): State
    requires n <= |listing|
    decreases listing, 1, n
  {
    if n == 0 then s
    else ScanEntry(ScanEntries(s, dir, listing, n - 1, outDir, now), dir, listing, n - 1, outDir, now)
  }

  /** One iteration of that loop, on listing[i]. */
  function ScanEntry(t: State, dir: string, listing: seq<Entry>, i: nat, outDir: string, now: nat -> int): State
    requires i < |listing|
    decreases listing, 0, 0
  {
    match listing[i]
    case Dir(name, children) =>
      if name != Thumbnails then ScanDir(t, dir + "/" + name, children, outDir, now) else t
    case File(name, birth) => CopyIfNew(t, dir, name, birth, outDir, now)
    case Other(_) => t
  }

  /** A regular file: copied when its name passes the filter and it was born after the threshold. */
  function CopyIfNew(t: State, dir: string, name: string, birth: int, outDir: string, now: nat -> int): State {
    if FileRegexTest(name) && birth > t.last then CopyFile(t, dir, name, birth, outDir, now) else t
  }

  /**
   * A selected file whose birth time exceeds the threshold: raise the
   * tracker, and copy it under the clock reading taken now (the clock reading
   * for the k-th copy the harvester makes is now(k)) followed by its extension.
   */
  function CopyFile(s: State, dir: string, name: string, birth: int, outDir: string, now: nat -> int): State
    requires FileRegexTest(name)
  {
    State(s.last,
          if birth > s.latest then birth else s.latest,
          s.copies + [CopyOf(dir + "/" + name, name, birth, now(|s.copies|), outDir)])
  }

  /** The copy of the file at `source`, called `name`, made when the clock reads `stamp`. */
  function CopyOf(source: string, name: string, birth: int, stamp: int, outDir: string): Copy
    requires FileRegexTest(name)
  {
    FilteredNameHasExtension(name);
    Copy(source, outDir + "/" + OutputName(stamp, ExtensionOf(name).value), birth)
  }

  // ---------------------------------------------------------------------------
  // an independent list of the files in a tree

  /** A regular file of the tree, with its path and the directories above it (below the root). */
  datatype Located = Located(path: string, dirs: seq<string>, name: string, birth: int)

  /** Every regular file under `dir`, depth first, `above` being the directory names leading to `dir`. */
  function FilesIn(dir: string, above: seq<string>, listing: seq<Entry>): seq<Located>
    decreases listing, 1
  {
    FilesUpTo(dir, above, listing, |listing|)
  }

  function FilesUpTo(dir: string, above: seq<string>, listing: seq<Entry>, n: nat): seq<Located>
    requires n <= |listing|
    decreases listing, 0, n
  {
    if n == 0 then []
    else FilesUpTo(dir, above, listing, n - 1) + EntryFiles(dir, above, listing, n - 1)
  }

  /** The regular files of listing[i]: the entry itself, or everything under it. */
  function EntryFiles(dir: string, above: seq<string>, listing: seq<Entry>, i: nat): seq<Located>
    requires i < |listing|
    decreases listing, 0, 0
  {
    match listing[i]
    case Dir(name, children) => FilesIn(dir + "/" + name, above + [name], children)
    case File(name, birth) => [Located(dir + "/" + name, above, name, birth)]
    case Other(_) => []
  }

  /** A file the scan would copy if it were new: not under a thumbnails directory, and passing the filter. */
  predicate Eligible(f: Located) {
    Thumbnails !in f.dirs && FileRegexTest(f.name)
  }

  lemma {:induction false} FilesInDirs(dir: string, above: seq<string>, listing: seq<Entry>)
    ensures forall f :: f in FilesIn(dir, above, listing) ==> above <= f.dirs
    decreases listing, 1
  {
    FilesUpToDirs(dir, above, listing, |listing|);
  }

  lemma {:induction false} FilesUpToDirs(dir: string, above: seq<string>, listing: seq<Entry>, n: nat)
    requires n <= |listing|
    ensures forall f :: f in FilesUpTo(dir, above, listing, n) ==> above <= f.dirs
    decreases listing, 0, n
  {
    if n > 0 {
      FilesUpToDirs(dir, above, listing, n - 1);
      match listing[n - 1]
      case Dir(name, children) =>
        FilesInDirs(dir + "/" + name, above + [name], children);
      case File(_, _) =>
      case Other(_) =>
    }
  }

  // ---------------------------------------------------------------------------
  // how a scan relates the state before it to the state after it

  /**
   * Copies are only appended, the tracker never decreases, and from a valid
   * state the threshold never decreases and stays at or below the tracker.
   */
  ghost predicate Extends(s: State, t: State) {
    && s.copies <= t.copies
    && s.latest <= t.latest
    && (Valid(s) ==> s.last <= t.last && Valid(t))
  }

  /**
   * Every copy made between s and t is of a file born after s's threshold
   * and no later than t's tracker, and t's tracker is s's or the birth time
   * of one of those copies: the tracker is the maximum of its old value and
   * the birth times of the copied files.
   */
  ghost predicate Watermarked(s: State, t: State)
    requires s.copies <= t.copies
  {
    && (forall k :: |s.copies| <= k < |t.copies| ==> s.last < t.copies[k].birth <= t.latest)
    && (t.latest == s.latest || exists k :: |s.copies| <= k < |t.copies| && t.copies[k].birth == t.latest)
  }

  lemma {:induction false} ScanDirExtends(s: State, dir: string, listing: seq<Entry>, outDir: string, now: nat -> int)
    ensures Extends(s, ScanDir(s, dir, listing, outDir, now))
    ensures ScanDir(s, dir, listing, outDir, now).last == ScanDir(s, dir, listing, outDir, now).latest
    decreases listing, 1
  {
    ScanEntriesExtends(s, dir, listing, |listing|, outDir, now);
  }

  lemma {:induction false} ScanEntriesExtends(s: State, dir: string, listing: seq<Entry>, n: nat, outDir: string, now: nat -> int)
    requires n <= |listing|
    ensures Extends(s, ScanEntries(s, dir, listing, n, outDir, now))
    decreases listing, 0, n
  {
    if n > 0 {
      var t := ScanEntries(s, dir, listing, n - 1, outDir, now);
      ScanEntriesExtends(s, dir, listing, n - 1, outDir, now);
      match listing[n - 1]
      case Dir(name, children) =>
        if name != Thumbnails {
          ScanDirExtends(t, dir + "/" + name, children, outDir, now);
        }
      case File(_, _) =>
      case Other(_) =>
    }
  }

  lemma WatermarkedTrans(s: State, t: State, u: State)
    requires Valid(s) && Extends(s, t) && Extends(t, u)
    requires Watermarked(s, t) && Watermarked(t, u)
    ensures Watermarked(s, u)
  {
    forall k | |s.copies| <= k < |t.copies| ensures u.copies[k] == t.copies[k] {
    }
    if u.latest != s.latest {
      if u.latest == t.latest {
        var k :| |s.copies| <= k < |t.copies| && t.copies[k].birth == t.latest;
        assert u.copies[k].birth == u.latest;
      } else {
        var k :| |t.copies| <= k < |u.copies| && u.copies[k].birth == u.latest;
        assert |s.copies| <= k;
      }
    }
  }

  /** The watermark after a call is the maximum of the tracker before it and the birth times of the files it copied. */
  lemma {:induction false} ScanDirWatermark(s: State, dir: string, listing: seq<Entry>, outDir: string, now: nat -> int)
    requires Valid(s)
    ensures Extends(s, ScanDir(s, dir, listing, outDir, now))
    ensures Watermarked(s, ScanDir(s, dir, listing, outDir, now))
    decreases listing, 1
  {
    ScanDirExtends(s, dir, listing, outDir, now);
    ScanEntriesWatermark(s, dir, listing, |listing|, outDir, now);
  }

  lemma {:induction false} ScanEntriesWatermark(s: State, dir: string, listing: seq<Entry>, n: nat, outDir: string, now: nat -> int)
    requires Valid(s)
    requires n <= |listing|
    ensures Extends(s, ScanEntries(s, dir, listing, n, outDir, now))
    ensures Watermarked(s, ScanEntries(s, dir, listing, n, outDir, now))
    decreases listing, 0, n
  {
    ScanEntriesExtends(s, dir, listing, n, outDir, now);
    if n > 0 {
      var t := ScanEntries(s, dir, listing, n - 1, outDir, now);
      ScanEntriesWatermark(s, dir, listing, n - 1, outDir, now);
      var u := ScanEntry(t, dir, listing, n - 1, outDir, now);
      assert ScanEntries(s, dir, listing, n, outDir, now) == u;
      match listing[n - 1]
      case Dir(name, children) =>
        if name != Thumbnails {
          ScanDirWatermark(t, dir + "/" + name, children, outDir, now);
          WatermarkedTrans(s, t, u);
        }
      case File(name, birth) =>
        if FileRegexTest(name) && birth > t.last {
          assert u.copies == t.copies + [u.copies[|t.copies|]];
          forall k | |s.copies| <= k < |t.copies| ensures u.copies[k] == t.copies[k] {
          }
          if u.latest != s.latest && u.latest == t.latest {
            var k :| |s.copies| <= k < |t.copies| && t.copies[k].birth == t.latest;
            assert u.copies[k].birth == u.latest;
          }
        }
      case Other(_) =>
    }
  }


  /**
   * Every copy in `copies` after those of s is of an eligible file of
   * `files`, born after the threshold of s, read from that file's path and
   * written to the output directory under the clock reading of that copy
   * followed by the file's extension.
   */
  ghost predicate CopiesFrom(s: State, copies: seq<Copy>, files: seq<Located>, outDir: string, now: nat -> int)
    requires s.copies <= copies
  {
    forall k :: |s.copies| <= k < |copies| ==> MadeFrom(copies[k], now(k), files, s.last, outDir)
  }

  /** `c` is the copy, under clock reading `stamp`, of an eligible file of `files` born after `last`. */
  ghost predicate MadeFrom(c: Copy, stamp: int, files: seq<Located>, last: int, outDir: string) {
    exists f :: f in files && Eligible(f) && f.birth > last && c == CopyOf(f.path, f.name, f.birth, stamp, outDir)
  }

  lemma CopiesFromJoin(s: State, t: State, u: seq<Copy>, a: seq<Located>, b: seq<Located>, outDir: string, now: nat -> int)
    requires s.copies <= t.copies <= u
    requires s.last <= t.last
    requires CopiesFrom(s, t.copies, a, outDir, now)
    requires CopiesFrom(t, u, b, outDir, now)
    ensures CopiesFrom(s, u, a + b, outDir, now)
  {
    forall k | |s.copies| <= k < |u|
      ensures MadeFrom(u[k], now(k), a + b, s.last, outDir)
    {
      if k < |t.copies| {
        assert MadeFrom(t.copies[k], now(k), a, s.last, outDir);
        var f :| f in a && Eligible(f) && f.birth > s.last && t.copies[k] == CopyOf(f.path, f.name, f.birth, now(k), outDir);
        assert u[k] == t.copies[k];
        assert f in a + b;
      } else {
        assert MadeFrom(u[k], now(k), b, t.last, outDir);
        var f :| f in b && Eligible(f) && f.birth > t.last && u[k] == CopyOf(f.path, f.name, f.birth, now(k), outDir);
        assert f in a + b;
      }
    }
  }

  lemma FileCopiesFrom(t: State, dir: string, above: seq<string>, name: string, birth: int, outDir: string, now: nat -> int)
    requires Thumbnails !in above
    ensures var u := CopyIfNew(t, dir, name, birth, outDir, now);
            && t.copies <= u.copies
            && CopiesFrom(t, u.copies, [Located(dir + "/" + name, above, name, birth)], outDir, now)
  {
    var f := Located(dir + "/" + name, above, name, birth);
    if FileRegexTest(name) && birth > t.last {
      var c := CopyOf(f.path, f.name, f.birth, now(|t.copies|), outDir);
      var u := CopyFile(t, dir, name, birth, outDir, now);
      assert u.copies == t.copies + [c];
      assert MadeFrom(c, now(|t.copies|), [f], t.last, outDir) by {
        assert f in [f];
      }
      forall k | |t.copies| <= k < |u.copies| ensures MadeFrom(u.copies[k], now(k), [f], t.last, outDir) {
        assert k == |t.copies|;
      }
    }
  }

  /** Every copy a call makes is of an eligible file of its tree born after the threshold it started from. */
  lemma {:induction false} ScanDirCopiesEligible(s: State, dir: string, above: seq<string>, listing: seq<Entry>, outDir: string, now: nat -> int)
    requires Valid(s)
    requires Thumbnails !in above
    ensures Extends(s, ScanDir(s, dir, listing, outDir, now))
    ensures CopiesFrom(s, ScanDir(s, dir, listing, outDir, now).copies, FilesIn(dir, above, listing), outDir, now)
    decreases listing, 1
  {
    ScanDirExtends(s, dir, listing, outDir, now);
    ScanEntriesCopiesEligible(s, dir, above, listing, |listing|, outDir, now);
  }

  lemma {:induction false} ScanEntriesCopiesEligible(s: State, dir: string, above: seq<string>, listing: seq<Entry>, n: nat, outDir: string, now: nat -> int)
    requires Valid(s)
    requires Thumbnails !in above
    requires n <= |listing|
    ensures Extends(s, ScanEntries(s, dir, listing, n, outDir, now))
    ensures CopiesFrom(s, ScanEntries(s, dir, listing, n, outDir, now).copies, FilesUpTo(dir, above, listing, n), outDir, now)
    decreases listing, 0, n
  {
    ScanEntriesExtends(s, dir, listing, n, outDir, now);
    if n > 0 {
      var t := ScanEntries(s, dir, listing, n - 1, outDir, now);
      var u := ScanEntry(t, dir, listing, n - 1, outDir, now);
      assert ScanEntries(s, dir, listing, n, outDir, now) == u;
      ScanEntriesExtends(s, dir, listing, n - 1, outDir, now);
      ScanEntriesCopiesEligible(s, dir, above, listing, n - 1, outDir, now);
      ScanEntryCopiesEligible(t, dir, above, listing, n - 1, outDir, now);
      CopiesFromJoin(s, t, u.copies, FilesUpTo(dir, above, listing, n - 1), EntryFiles(dir, above, listing, n - 1), outDir, now);
    }
  }

  /** One iteration of the loop copies only eligible files of its entry born after the threshold it started from. */
  lemma {:induction false} ScanEntryCopiesEligible(t: State, dir: string, above: seq<string>, listing: seq<Entry>, i: nat, outDir: string, now: nat -> int)
    requires Valid(t)
    requires Thumbnails !in above
    requires i < |listing|
    ensures t.copies <= ScanEntry(t, dir, listing, i, outDir, now).copies
    ensures CopiesFrom(t, ScanEntry(t, dir, listing, i, outDir, now).copies, EntryFiles(dir, above, listing, i), outDir, now)
    decreases listing, 0, 0
  {
    match listing[i] {
      case Dir(name, children) =>
        if name != Thumbnails {
          ScanDirCopiesEligible(t, dir + "/" + name, above + [name], children, outDir, now);
        }
      case File(name, birth) =>
        FileCopiesFrom(t, dir, above, name, birth, outDir, now);
      case Other(_) =>
    }
  }

  /**
   * After a call, every eligible file of its tree is born no later than the
   * watermark: those it copied raised the tracker to at least their birth
   * time, and those it did not copy were at or below the threshold.
   */
  lemma {:induction false} ScanDirCovers(s: State, dir: string, above: seq<string>, listing: seq<Entry>, outDir: string, now: nat -> int)
    requires Valid(s)
    ensures forall f :: f in FilesIn(dir, above, listing) && Eligible(f) ==>
              f.birth <= ScanDir(s, dir, listing, outDir, now).latest
    decreases listing, 1
  {
    ScanEntriesCovers(s, dir, above, listing, |listing|, outDir, now);
  }

  lemma {:induction false} ScanEntriesCovers(s: State, dir: string, above: seq<string>, listing: seq<Entry>, n: nat, outDir: string, now: nat -> int)
    requires Valid(s)
    requires n <= |listing|
    ensures forall f :: f in FilesUpTo(dir, above, listing, n) && Eligible(f) ==>
              f.birth <= ScanEntries(s, dir, listing, n, outDir, now).latest
    decreases listing, 0, n
  {
    if n > 0 {
      var t := ScanEntries(s, dir, listing, n - 1, outDir, now);
      var u := ScanEntry(t, dir, listing, n - 1, outDir, now);
      assert ScanEntries(s, dir, listing, n, outDir, now) == u;
      var before := FilesUpTo(dir, above, listing, n - 1);
      ScanEntriesCovers(s, dir, above, listing, n - 1, outDir, now);
      ScanEntriesExtends(s, dir, listing, n - 1, outDir, now);
      match listing[n - 1]
      case Dir(name, children) =>
        var inner := FilesIn(dir + "/" + name, above + [name], children);
        assert FilesUpTo(dir, above, listing, n) == before + inner;
        if name != Thumbnails {
          ScanDirCovers(t, dir + "/" + name, above + [name], children, outDir, now);
          ScanDirExtends(t, dir + "/" + name, children, outDir, now);
        } else {
          FilesInDirs(dir + "/" + name, above + [name], children);
          forall f | f in inner ensures Thumbnails in f.dirs {
            assert (above + [name])[|above|] == Thumbnails;
            assert f.dirs[|above|] == Thumbnails;
          }
        }
      case File(name, birth) =>
        assert FilesUpTo(dir, above, listing, n) == before + [Located(dir + "/" + name, above, name, birth)];
      case Other(_) =>
        assert FilesUpTo(dir, above, listing, n) == before;
    }
  }

  /**
   * A call over a tree none of whose eligible files is born after the
   * watermark, from a state whose two globals agree, changes nothing and
   * copies nothing.
   */
  lemma {:induction false} ScanDirUnchanged(s: State, dir: string, above: seq<string>, listing: seq<Entry>, outDir: string, now: nat -> int)
    requires s.last == s.latest
    requires Thumbnails !in above
    requires forall f :: f in FilesIn(dir, above, listing) && Eligible(f) ==> f.birth <= s.last
    ensures ScanDir(s, dir, listing, outDir, now) == s
    decreases listing, 1
  {
    ScanEntriesUnchanged(s, dir, above, listing, |listing|, outDir, now);
  }

  lemma {:induction false} ScanEntriesUnchanged(s: State, dir: string, above: seq<string>, listing: seq<Entry>, n: nat, outDir: string, now: nat -> int)
    requires s.last == s.latest
    requires Thumbnails !in above
    requires n <= |listing|
    requires forall f :: f in FilesUpTo(dir, above, listing, n) && Eligible(f) ==> f.birth <= s.last
    ensures ScanEntries(s, dir, listing, n, outDir, now) == s
    decreases listing, 0, n
  {
    if n > 0 {
      var before := FilesUpTo(dir, above, listing, n - 1);
      assert before <= FilesUpTo(dir, above, listing, n);
      ScanEntriesUnchanged(s, dir, above, listing, n - 1, outDir, now);
      match listing[n - 1]
      case Dir(name, children) =>
        if name != Thumbnails {
          var inner := FilesIn(dir + "/" + name, above + [name], children);
          assert FilesUpTo(dir, above, listing, n) == before + inner;
          ScanDirUnchanged(s, dir + "/" + name, above + [name], children, outDir, now);
        }
      case File(name, birth) =>
        var f := Located(dir + "/" + name, above, name, birth);
        assert FilesUpTo(dir, above, listing, n) == before + [f];
        assert f in FilesUpTo(dir, above, listing, n);
      case Other(_) =>
    }
  }

  /**
   * A second pass over an unchanged tree, whatever the clock reads, copies
   * nothing and leaves both globals where the first pass put them.
   */
  lemma SecondPassCopiesNothing(s: State, dir: string, listing: seq<Entry>, outDir: string, now: nat -> int, later: nat -> int)
    requires Valid(s)
    ensures ScanDir(ScanDir(s, dir, listing, outDir, now), dir, listing, outDir, later) == ScanDir(s, dir, listing, outDir, now)
  {
    var t := ScanDir(s, dir, listing, outDir, now);
    ScanDirExtends(s, dir, listing, outDir, now);
    ScanDirCovers(s, dir, [], listing, outDir, now);
    ScanDirUnchanged(t, dir, [], listing, outDir, later);
  }

  // ---------------------------------------------------------------------------
  // concrete trees

  /** A directory holding one selected file born after both globals: it is copied, and the watermark moves to its birth time. */
  lemma OneNewFile(s: State, dir: string, name: string, birth: int, outDir: string, now: nat -> int)
    requires FileRegexTest(name) && birth > s.last && birth > s.latest
    ensures ScanDir(s, dir, [File(name, birth)], outDir, now) == CopyFile(s, dir, name, birth, outDir, now).(last := birth)
  {
    assert ScanEntry(s, dir, [File(name, birth)], 0, outDir, now) == CopyFile(s, dir, name, birth, outDir, now);
    assert ScanEntries(s, dir, [File(name, birth)], 1, outDir, now) == CopyFile(s, dir, name, birth, outDir, now);
  }

  /**
   * From a watermark of 0, a tree holding a selected file `a` (born at 100),
   * thumbnails/`b` (50) and `sub`/`c` (200), listed in that order: the first
   * pass copies `a` and `sub`/`c` and raises the watermark to 200; a second
   * pass copies nothing.
   */
  lemma TwoPassScenario(root: string, a: string, b: string, sub: string, c: string, outDir: string, now: nat -> int, later: nat -> int)
    requires FileRegexTest(a) && FileRegexTest(b) && FileRegexTest(c) && sub != Thumbnails
    ensures var listing := [File(a, 100), Dir(Thumbnails, [File(b, 50)]), Dir(sub, [File(c, 200)])];
            var first := ScanDir(State(0, 0, []), root, listing, outDir, now);
            && |first.copies| == 2
            && first.copies[0].source == root + "/" + a
            && first.copies[1].source == root + "/" + sub + "/" + c
            && first.last == first.latest == 200
            && ScanDir(first, root, listing, outDir, later) == first
  {
    var listing := [File(a, 100), Dir(Thumbnails, [File(b, 50)]), Dir(sub, [File(c, 200)])];
    var s0 := State(0, 0, []);
    assert ScanEntries(s0, root, listing, 0, outDir, now) == s0;
    assert listing[0] == File(a, 100);
    var s1 := CopyFile(s0, root, a, 100, outDir, now);
    assert ScanEntry(s0, root, listing, 0, outDir, now) == s1;
    assert ScanEntries(s0, root, listing, 1, outDir, now) == s1;
    assert ScanEntry(s1, root, listing, 1, outDir, now) == s1;
    assert ScanEntries(s0, root, listing, 2, outDir, now) == s1;
    OneNewFile(s1, root + "/" + sub, c, 200, outDir, now);
    var s3 := ScanDir(s1, root + "/" + sub, [File(c, 200)], outDir, now);
    assert ScanEntry(s1, root, listing, 2, outDir, now) == s3;
    assert ScanEntries(s0, root, listing, 3, outDir, now) == s3;
    SecondPassCopiesNothing(s0, root, listing, outDir, now, later);
  }

  /**
   * The threshold is raised when a subdirectory's scan returns, so a later
   * sibling born after the watermark the pass started from, but no later
   * than the newest file that subdirectory copied, is never copied: the pass
   * makes exactly the subdirectory's copies, and any later pass over the same
   * tree changes nothing.
   */
  lemma SiblingAfterSubdirectoryIsLost(s: State, root: string, sub: string, children: seq<Entry>, a: string, birth: int,
                                       outDir: string, now: nat -> int, later: nat -> int)
    requires Valid(s) && sub != Thumbnails
    requires s.last < birth <= ScanDir(s, root + "/" + sub, children, outDir, now).latest
    ensures var listing := [Dir(sub, children), File(a, birth)];
            var first := ScanDir(s, root, listing, outDir, now);
            && first == ScanDir(s, root + "/" + sub, children, outDir, now)
            && ScanDir(first, root, listing, outDir, later) == first
  {
    var listing := [Dir(sub, children), File(a, birth)];
    var t := ScanDir(s, root + "/" + sub, children, outDir, now);
    ScanDirExtends(s, root + "/" + sub, children, outDir, now);
    assert ScanEntries(s, root, listing, 0, outDir, now) == s;
    assert ScanEntry(s, root, listing, 0, outDir, now) == t;
    assert ScanEntries(s, root, listing, 1, outDir, now) == t;
    assert ScanEntry(t, root, listing, 1, outDir, now) == t;
    assert ScanEntries(s, root, listing, 2, outDir, now) == t;
    SecondPassCopiesNothing(s, root, listing, outDir, now, later);
  }
}
