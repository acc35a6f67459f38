/**
 * The harvester's state and its operations: `setup` (the constructor),
 * `scanDirectory` (a recursive method over the directory tree, with the loop
 * over a directory's listing) and `writeConfig`, plus one pass of `scan` and
 * a finite run of passes standing for its self-rescheduling timer.
 *
 * The filesystem is a parameter: each call receives the listing of the
 * directory it scans. A copy is recorded by appending to `copies`, and the
 * configuration file is the field `config`. The wall clock is the function
 * `now`: the k-th copy the harvester makes is named after now(k).
 */
module Watcher {
  import opened Wrappers
  import opened Names
  import opened Harvest

  /** The directory harvested from. */
  const WatchDir := "/mnt/share"
  /** The directory copies are written to. */
  const OutputDir := "/home/pi/media/steam"

  class Harvester {
    /** The threshold a file's birth time must exceed to be copied. */
    var lastScanTime: int
    /** The stored watermark at startup, raised to the birth time of each newer file copied since. */
    var latestTimeScanned: int
    /** Every copyFileSync made so far, in order. */
    var copies: seq<Copy>
    /** The last_scan_time stored in config.json; None when the file is absent or cannot be parsed. */
    var config: Option<int>

    function Snapshot(): State
      reads this
    {
      State(lastScanTime, latestTimeScanned, copies)
    }

    predicate Valid()
      reads this
    {
      Harvest.Valid(Snapshot())
    }

    /**
     * `setup`, given what reading and parsing config.json gave: the stored
     * watermark, or 0 when that failed; the tracker starts equal to it.
     */
    constructor (stored: Option<int>)
      ensures lastScanTime == latestTimeScanned == (if stored.Some? then stored.value else 0)
      ensures copies == [] && config == stored
      ensures Snapshot() == Startup(stored) && Valid()
    {
      match stored {
        case Some(v) => lastScanTime := v;
        case None => lastScanTime := 0;
      }
      latestTimeScanned := lastScanTime;
      copies := [];
      config := stored;
    }

    /**
     * `scanDirectory(scanDir, outDir)`, `listing` being what readdirSync
     * returns for `scanDir`. Its effect is ScanDir's, and it returns the
     * number of copies it and its recursive calls made.
     */
    method ScanDirectory(scanDir: string, listing: seq<Entry>, outDir: string, now: nat -> int) returns (filesCopied: nat)
      modifies this`lastScanTime, this`latestTimeScanned, this`copies
      ensures Snapshot() == ScanDir(old(Snapshot()), scanDir, listing, outDir, now)
      ensures |copies| == |old(copies)| + filesCopied
      decreases listing
    {
      filesCopied := 0;
      ghost var start := Snapshot();
      for i := 0 to |listing|
        invariant Snapshot() == ScanEntries(start, scanDir, listing, i, outDir, now)
        invariant |copies| == |start.copies| + filesCopied
      {
        match listing[i] {
          case Dir(name, children) =>
            if name != Thumbnails {
              var n := ScanDirectory(scanDir + "/" + name, children, outDir, now);
              filesCopied := filesCopied + n;
            }
          case File(name, birth) =>
            var n := HarvestFile(scanDir, name, birth, outDir, now);
            filesCopied := filesCopied + n;
          case Other(_) =>
        }
      }
      if latestTimeScanned != lastScanTime {
        lastScanTime := latestTimeScanned;
      }
    }

    /**
     * The body of the loop of `scanDirectory` for a regular file: when its
     * name passes the filter and its birth time exceeds the threshold, raise
     * the tracker and copy it under the clock reading followed by its
     * extension. Returns the number of copies made (0 or 1).
     */
    method HarvestFile(scanDir: string, name: string, birth: int, outDir: string, now: nat -> int) returns (copied: nat)
      modifies this`latestTimeScanned, this`copies
      ensures Snapshot() == CopyIfNew(old(Snapshot()), scanDir, name, birth, outDir, now)
      ensures |copies| == |old(copies)| + copied
    {
      copied := 0;
      if FileRegexTest(name) {
        var srcFilename := scanDir + "/" + name;
        if birth > lastScanTime {
          if birth > latestTimeScanned {
            latestTimeScanned := birth;
          }
          FilteredNameHasExtension(name);
          var fileExtension := ExtensionOf(name).value;
          var outputFilename := OutputName(now(|copies|), fileExtension);
          copies := copies + [Copy(srcFilename, outDir + "/" + outputFilename, birth)];
          copied := 1;
        }
      }
    }

    /** `writeConfig`: persist the current watermark. */
    method WriteConfig()
      modifies this`config
      ensures config == Some(lastScanTime)
    {
      config := Some(lastScanTime);
    }

    /**
     * One pass of `scan`: harvest the watch directory, then persist the
     * watermark. The watermark ends equal to the tracker and is what
     * config.json now holds; from a valid state it does not decrease.
     */
    method Scan(listing: seq<Entry>, now: nat -> int) returns (num: nat)
      modifies this
      ensures Snapshot() == ScanDir(old(Snapshot()), WatchDir, listing, OutputDir, now)
      ensures |copies| == |old(copies)| + num
      ensures lastScanTime == latestTimeScanned
      ensures old(Valid()) ==> Valid() && old(lastScanTime) <= lastScanTime
      ensures config == Some(lastScanTime)
    {
      num := ScanDirectory(WatchDir, listing, OutputDir, now);
      ScanDirExtends(old(Snapshot()), WatchDir, listing, OutputDir, now);
      WriteConfig();
    }

    /**
     * One `scan` per listing in `passes`, in order. `saved` holds the
     * watermark persisted after each pass and `counts` the files each pass
     * copied, as the passes of `AfterPasses` from the state before.
     */
    method ScanPasses(passes: seq<seq<Entry>>, now: nat -> int) returns (saved: seq<int>, counts: seq<nat>)
      modifies this
      ensures |saved| == |counts| == |passes|
      ensures Snapshot() == AfterPasses(old(Snapshot()), passes, |passes|, now)
      ensures forall i :: 0 <= i < |saved| ==> saved[i] == AfterPasses(old(Snapshot()), passes, i + 1, now).last
      ensures forall i :: 0 <= i < |counts| ==>
                counts[i] == |AfterPasses(old(Snapshot()), passes, i + 1, now).copies| - |AfterPasses(old(Snapshot()), passes, i, now).copies|
      ensures |passes| == 0 ==> config == old(config)
      ensures |passes| > 0 ==> config == Some(saved[|passes| - 1])
    {
      saved, counts := [], [];
      ghost var init := Snapshot();
      ghost var stored := config;
      for p := 0 to |passes|
        invariant |saved| == |counts| == p
        invariant Snapshot() == AfterPasses(init, passes, p, now)
        invariant forall i :: 0 <= i < p ==> saved[i] == AfterPasses(init, passes, i + 1, now).last
        invariant forall i :: 0 <= i < p ==>
                    counts[i] == |AfterPasses(init, passes, i + 1, now).copies| - |AfterPasses(init, passes, i, now).copies|
        invariant config == if p == 0 then stored else Some(saved[p - 1])
      {
        var num := Scan(passes[p], now);
        saved, counts := saved + [lastScanTime], counts + [num];
      }
    }
  }

  /** The state `setup` leaves: the stored watermark, or 0, as both globals, and no copies. */
  function Startup(stored: Option<int>): State {
    var v := if stored.Some? then stored.value else 0;
    State(v, v, [])
  }

  /** The state after the first n passes of a run that started in `init`, pass k scanning the tree passes[k]. */
  function AfterPasses(init: State, passes: seq<seq<Entry>>, n: nat, now: nat -> int): State
    requires n <= |passes|
  {
    if n == 0 then init
    else ScanDir(AfterPasses(init, passes, n - 1, now), WatchDir, passes[n - 1], OutputDir, now)
  }

  /** From a state with `last <= latest`, every later state of the run keeps that order and a watermark no lower than the first. */
  lemma {:induction false} AfterPassesValid(init: State, passes: seq<seq<Entry>>, n: nat, now: nat -> int)
    requires Harvest.Valid(init) && n <= |passes|
    ensures Harvest.Valid(AfterPasses(init, passes, n, now))
    ensures init.last <= AfterPasses(init, passes, n, now).last
  {
    if n > 0 {
      AfterPassesValid(init, passes, n - 1, now);
      ScanDirExtends(AfterPasses(init, passes, n - 1, now), WatchDir, passes[n - 1], OutputDir, now);
    }
  }

  /** The watermark never decreases from one pass to a later one. */
  lemma {:induction false} AfterPassesMonotone(init: State, passes: seq<seq<Entry>>, i: nat, j: nat, now: nat -> int)
    requires Harvest.Valid(init) && i <= j <= |passes|
    ensures AfterPasses(init, passes, i, now).last <= AfterPasses(init, passes, j, now).last
    decreases j
  {
    if i < j {
      AfterPassesMonotone(init, passes, i, j - 1, now);
      AfterPassesValid(init, passes, j - 1, now);
      ScanDirExtends(AfterPasses(init, passes, j - 1, now), WatchDir, passes[j - 1], OutputDir, now);
    }
  }

  /** A pass over the same tree as the pass before it leaves the state as that pass left it. */
  lemma AfterPassesRepeat(init: State, passes: seq<seq<Entry>>, i: nat, now: nat -> int)
    requires Harvest.Valid(init) && 0 < i < |passes| && passes[i] == passes[i - 1]
    ensures AfterPasses(init, passes, i + 1, now) == AfterPasses(init, passes, i, now)
  {
    AfterPassesValid(init, passes, i - 1, now);
    SecondPassCopiesNothing(AfterPasses(init, passes, i - 1, now), WatchDir, passes[i - 1], OutputDir, now, now);
  }

  /**
   * Over a whole run from a state with `last <= latest`: the watermark after
   * any number of passes is at least the starting one and never decreases,
   * and a pass over the same tree as the pass before it changes nothing.
   */
  lemma AfterPassesFacts(init: State, passes: seq<seq<Entry>>, now: nat -> int)
    requires Harvest.Valid(init)
    ensures forall n :: 0 <= n <= |passes| ==> init.last <= AfterPasses(init, passes, n, now).last
    ensures forall m, n :: 0 <= m <= n <= |passes| ==> AfterPasses(init, passes, m, now).last <= AfterPasses(init, passes, n, now).last
    ensures forall i :: 0 < i < |passes| && passes[i] == passes[i - 1] ==>
              AfterPasses(init, passes, i + 1, now) == AfterPasses(init, passes, i, now)
  {
    forall n | 0 <= n <= |passes| ensures init.last <= AfterPasses(init, passes, n, now).last {
      AfterPassesValid(init, passes, n, now);
    }
    forall m, n | 0 <= m <= n <= |passes| ensures AfterPasses(init, passes, m, now).last <= AfterPasses(init, passes, n, now).last {
      AfterPassesMonotone(init, passes, m, n, now);
    }
    forall i | 0 < i < |passes| && passes[i] == passes[i - 1]
      ensures AfterPasses(init, passes, i + 1, now) == AfterPasses(init, passes, i, now)
    {
      AfterPassesRepeat(init, passes, i, now);
    }
  }

  /**
   * A run of the harvester: `setup` with what config.json gave, then one
   * `scan` per listing in `passes`, the tree as it stands at that tick.
   * `saved` holds the watermark persisted after each pass and `counts` the
   * files each pass copied. The persisted watermark never decreases, never
   * falls below the one the run started from, and a pass over the same tree
   * as the pass before it copies nothing.
   */
  method RunPasses(stored: Option<int>, passes: seq<seq<Entry>>, now: nat -> int) returns (saved: seq<int>, counts: seq<nat>)
    ensures |saved| == |counts| == |passes|
    ensures forall i :: 0 <= i < |saved| ==> saved[i] == AfterPasses(Startup(stored), passes, i + 1, now).last
    ensures forall i :: 0 <= i < |counts| ==>
              counts[i] == |AfterPasses(Startup(stored), passes, i + 1, now).copies| - |AfterPasses(Startup(stored), passes, i, now).copies|
    ensures forall i :: 0 <= i < |saved| ==> (if stored.Some? then stored.value else 0) <= saved[i]
    ensures forall i, j :: 0 <= i <= j < |saved| ==> saved[i] <= saved[j]
    ensures forall i :: 0 < i < |passes| && passes[i] == passes[i - 1] ==> counts[i] == 0
  {
    var h := new Harvester(stored);
    saved, counts := h.ScanPasses(passes, now);
    AfterPassesFacts(Startup(stored), passes, now);
  }
}
