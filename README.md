# steam-watcher harvester, modelled in Dafny

The harvester (`watcher.js`) polls a directory tree of game screenshots. It
copies each newly created `.jpg` into a flat output directory under a name
made from the copy-time clock. It keeps a watermark timestamp
(`last_scan_time`) in `config.json`, so that a restart does not copy old
files again. The watermark is paired with a second global,
`latest_time_scanned`. It starts at the stored watermark (watcher.js:48) and
is raised to the birth time of each copied file that is newer, so it is the
larger of the starting watermark and the birth times copied so far.
The watermark is only ever raised to that value, never to the harvester's
own clock, so the scheme tolerates a producer machine whose clock runs ahead.

This project models one harvest pass and the state around it:

- `wrappers.dfy`: the `Option` type.
- `names.dfy` (module `Names`): the file-name filter `file_regex`, the
  extension extraction `file_extension_regex`, and the output name. Both
  patterns are JavaScript string literals in which `\.` collapses to `.`.
  The engine therefore sees `.*.jpg$` and `.[a-zA-Z0-9]+$`. Each is modelled
  as a plain function and proved equal to the regular-expression search it
  stands for, over names taken as sequences of Unicode characters. Line
  terminators, which `.` does not match, are modelled. The engine itself
  works on UTF-16 code units; where that matters is under "Left out".
- `harvest.dfy` (module `Harvest`): one call of `scanDirectory` as pure
  functions over an in-memory tree (`ScanDir`, `ScanEntries`, `ScanEntry`,
  `CopyIfNew`, `CopyFile`). A copy is a record appended to a log. There is
  also an independent list of a tree's regular files (`FilesIn`). The lemmas
  cover what the watermark scheme promises: the two globals stay ordered and
  never decrease; the watermark after a pass is the maximum of the old
  tracker and the birth times of the files copied; only eligible files are
  copied; every eligible file ends at or below the watermark; and a second
  pass over an unchanged tree copies nothing.
- `watcher.dfy` (module `Watcher`): class `Harvester`, whose fields are the
  two globals, the copy log and the `config.json` contents. Its constructor
  is `setup`. `ScanDirectory` is the recursive method with the loop over a
  directory listing, proved equal to `ScanDir`. `WriteConfig`
  and `Scan` model `writeConfig` and one `scan`. `RunPasses` is a finite run of
  `scan`.

Inputs that the program gets from its environment are parameters here:

- The listing of each directory (what `readdirSync` returns).
- The result of reading and parsing `config.json` (`stored: Option<int>`).
- The wall clock: a function `now`, where the k-th copy the harvester makes
  is named after `now(k)`.

## Where the code differs from the behaviour one would expect

The comments in `watcher.js` say what the watermark is for: a file is
copied when it "was created since our last scan" (watcher.js:106), and the
second global absorbs the clock difference between the machine that writes
the screenshots and the one that harvests them (watcher.js:24-27, 108-111).
From that one expects each pass to compare every file with the watermark
the pass started from, and a late-arriving file from the slower machine to
still be copied. The code does not do either, and the model follows the
code.

- **The threshold rises in the middle of a pass.** The code raises
  `last_scan_time` at the end of *every* `scanDirectory` call, recursive ones
  included (watcher.js:129-131). So once a subdirectory has been scanned,
  its later siblings are compared with the raised threshold.
  `Harvest.SiblingAfterSubdirectoryIsLost` proves this for a directory whose
  listing is a subdirectory followed by one file, born after the starting
  watermark but no later than the newest file the subdirectory copied. The
  pass makes exactly the subdirectory's copies. The file is never copied,
  in that pass or in any later pass over the same tree.
- **The filter is not "ends in `.jpg`".** The filter accepts any name of at
  least four characters that ends in lower-case `jpg`, `xjpg` included. The
  character before `jpg` only has to be something other than a line
  terminator.
- **A later, older file is not copied.** One would expect a file added in
  a later pass to be copied when it was born before a file already seen but
  after the watermark recorded before that file. The code does not do this. After a pass the watermark stands
  at the newest birth time copied, and a tree whose eligible files are all
  at or below the watermark copies nothing (`Harvest.ScanDirUnchanged`).

## Model

| member | source | states |
|---|---|---|
| `Names.FileRegexTestIsSearch` | watcher.js:17 | the filter holds exactly when some start position gives a match of `.*.jpg$`: non-line-terminators, one more such character, `jpg`, end of input |
| `Names.FileRegexTestOnPlainNames` | watcher.js:17 | on names without line terminators the filter is "length at least 4 and ends in `jpg`", case-sensitive, with any character before `jpg` |
| `Names.FileRegexExamples` | watcher.js:17 | `photo.jpg` and `xjpg` pass; `photo.png`, `photo.JPG`, `jpg` and a name with a newline before `jpg` do not |
| `Names.AlnumRunStart` | watcher.js:19 | the start of the maximal trailing run of `[a-zA-Z0-9]`: everything from it on is alphanumeric and the character before it is not |
| `Names.ExtensionIsLeftmostMatch` | watcher.js:19 | `ExtensionOf` is None exactly when no position starts a match of `.[a-zA-Z0-9]+$`; otherwise it is the text of the leftmost match, the suffix from that position |
| `Names.ExtensionOfPlainName` | watcher.js:19 | for names without line terminators that end in an alphanumeric, the extension is the character before the trailing run plus the run, or the whole name when it is all alphanumeric |
| `Names.FilteredNameHasExtension` | watcher.js:100-118 | a name the filter accepts always has an extension (`exec(...)[0]` never reads null), and it is a suffix of at least four characters ending in `jpg` |
| `Names.ExtensionExamples` | watcher.js:19 | `photo.jpg` gives `.jpg`, `xjpg` gives `xjpg`, and `a.` gives no match |
| `Names.DigitString` | watcher.js:120 | the decimal form of the clock reading is a non-empty string of digits |
| `Names.DigitStringRoundTrip` | watcher.js:120 | reading the digits back gives the clock reading again |
| `Names.NumberStringRoundTrip` | watcher.js:120 | parsing the sign and digits of the number's string form gives the number again |
| `Names.FileRegexTest` | watcher.js:17 | the test `file_regex.test(name)`; it is characterised by `FileRegexTestIsSearch` and `FileRegexTestOnPlainNames` |
| `Names.ExtensionOf` | watcher.js:19 | the match `file_extension_regex.exec(name)`, None for null; it is characterised by `ExtensionIsLeftmostMatch` and `FilteredNameHasExtension` |
| `Names.DigitStringNoLeadingZero` | watcher.js:120 | the digits are the plain decimal form: `0` for zero, otherwise no leading zero |
| `Names.NumberString` | watcher.js:120 | the string form of the clock reading, minus sign then digits; `NumberStringRoundTrip` reads it back |
| `Names.OutputName` | watcher.js:120 | the clock reading's string form followed by the extension; `OutputNameSplits` splits it back |
| `Names.OutputNameSplits` | watcher.js:120 | a generated name ends in the extension, and the part before it reads back as the clock reading |
| `Harvest.ScanDir` | watcher.js:83-133 | one `scanDirectory` call: the loop over the listing, then the threshold raised to the tracker; characterised by the `ScanDir*` lemmas below |
| `Harvest.ScanEntries` | watcher.js:91-127 | the state after the loop has handled a prefix of the listing; characterised by the `ScanEntries*` lemmas below |
| `Harvest.ScanEntry` | watcher.js:93-126 | one iteration: recurse into a directory not called `thumbnails`, try a regular file, skip anything else |
| `Harvest.CopyIfNew` | watcher.js:100-107 | a regular file is copied when its name passes the filter and its birth time exceeds the threshold; `FileCopiesFrom` states what is then appended |
| `Harvest.CopyFile` | watcher.js:112-124 | the tracker is raised to the birth time when that is larger, and one copy is appended; `FileCopiesFrom` and `ScanDirWatermark` |
| `Harvest.CopyOf` | watcher.js:118-123 | the copy from `dir/name` to `outDir/` plus the clock reading and the extension; `FilteredNameHasExtension` shows the extension exists |
| `Harvest.ScanDirExtends` | watcher.js:83-133 | a call only appends copies and never lowers the tracker; from `last <= latest` the threshold never decreases and the order is kept; on return the threshold equals the tracker |
| `Harvest.ScanEntriesExtends` | watcher.js:91-127 | the same after every iteration of the loop over a listing |
| `Harvest.ScanDirWatermark` | watcher.js:107-114 | every file a call copies was born after its starting threshold and no later than the final watermark, and the final watermark is the old tracker or the birth time of a file it copied, so it is their maximum |
| `Harvest.ScanEntriesWatermark` | watcher.js:91-127 | the same for every prefix of a listing |
| `Harvest.FileCopiesFrom` | watcher.js:100-125 | a regular file is copied only if it passes the filter and was born after the current threshold, from `dir/name` to `outDir/(clock value + extension)` |
| `Harvest.ScanDirCopiesEligible` | watcher.js:93-125 | every copy a call makes is of a regular file of its tree that is under no `thumbnails` directory, passes the filter and was born after the starting threshold; it goes from that file's path to the output directory, named after the clock reading of that copy and the file's extension |
| `Harvest.ScanEntriesCopiesEligible` | watcher.js:91-127 | the same for every prefix of a listing |
| `Harvest.ScanEntryCopiesEligible` | watcher.js:93-126 | the same for one iteration of the loop: what it appends comes from the files of that entry |
| `Harvest.ScanDirCovers` | watcher.js:107-131 | after a call, every regular file of the tree outside `thumbnails` directories whose name passes the filter was born no later than the watermark |
| `Harvest.ScanEntriesCovers` | watcher.js:91-127 | the same for every prefix of a listing |
| `Harvest.ScanDirUnchanged` | watcher.js:83-133 | from a state whose two globals agree, over a tree none of whose eligible files is newer than the watermark, a call copies nothing and changes nothing |
| `Harvest.ScanEntriesUnchanged` | watcher.js:91-127 | the same for every prefix of a listing |
| `Harvest.SecondPassCopiesNothing` | watcher.js:83-133 | a second pass over an unchanged tree, whatever the clock reads, copies nothing and leaves the state of the first pass unchanged |
| `Harvest.OneNewFile` | watcher.js:100-131 | a directory holding one selected file newer than both globals copies it and moves the watermark to its birth time |
| `Harvest.TwoPassScenario` | watcher.js:83-133 | from watermark 0, files born at 100, at 50 under `thumbnails`, and at 200 in a subdirectory: the first pass copies the first and the third and ends at 200; the second copies nothing |
| `Harvest.SiblingAfterSubdirectoryIsLost` | watcher.js:93-131 | for every state with `last <= latest` and every subdirectory: a file listed after it, born after the starting watermark but no later than the newest file it copied, is not copied; the pass ends in exactly the subdirectory's state, and a later pass over the same tree changes nothing |
| `Watcher.Harvester.constructor` | watcher.js:39-48 | the harvester starts in `Startup(stored)`: the watermark is the stored value, or 0 when reading or parsing the configuration failed; the tracker starts equal to it; no copies yet |
| `Watcher.Harvester.ScanDirectory` | watcher.js:83-133 | the new globals and copy log are exactly `ScanDir` of the old ones; only those three fields change; the result equals the number of copies made by the call and its recursive calls |
| `Watcher.Harvester.HarvestFile` | watcher.js:100-125 | one regular file: the tracker and copy log become `CopyIfNew` of the old ones; the result is the number of copies made |
| `Watcher.Harvester.WriteConfig` | watcher.js:139-150 | the configuration now holds the current watermark, and nothing else changes |
| `Watcher.Harvester.Scan` | watcher.js:59-72 | one pass over the watch directory into the output directory, then persist: the watermark equals the tracker and is what the configuration holds; from a valid state it has not decreased |
| `Watcher.Startup` | watcher.js:39-48 | the state `setup` leaves; the constructor ensures the harvester starts in it |
| `Watcher.AfterPasses` | watcher.js:59-72 | the state after the first n passes of a run, each pass one `ScanDir` over the watch directory |
| `Watcher.AfterPassesValid` | watcher.js:59-72 | from a state with `last <= latest`, every later state of the run keeps that order, and its watermark is at least the starting one |
| `Watcher.AfterPassesMonotone` | watcher.js:59-72 | the watermark after i passes is at most the watermark after j passes, for i <= j |
| `Watcher.AfterPassesRepeat` | watcher.js:59-72 | a pass over the same tree as the pass before it leaves the state as that pass left it |
| `Watcher.AfterPassesFacts` | watcher.js:59-72 | the three facts above, for every pass of a run |
| `Watcher.Harvester.ScanPasses` | watcher.js:59-72 | one `scan` per listing: the harvester ends in the state `AfterPasses` gives; the watermark persisted after pass i and the count of pass i are those of pass i of `AfterPasses`; the configuration ends holding the last pass's watermark, or is untouched when there are no passes |
| `Watcher.RunPasses` | watcher.js:38-72 | over any finite run of passes from startup: the watermark persisted after pass i is that of `AfterPasses` after i+1 passes, and the count of pass i is the number of copies that pass added; the persisted watermark never decreases and never falls below the starting one; a pass over the same tree as the previous pass copies nothing |

## Left out

- Reading `config.json` and `JSON.parse` (watcher.js:39-42) are file I/O. The constructor receives what they produced: `Some(v)`, or `None` when reading or parsing threw. The case where the file parses but has no `last_scan_time` field (the watermark becomes `undefined`) is not modelled.
- `writeConfig`'s file descriptor calls and JSON formatting (watcher.js:141-149) are not modelled. Writing the file is "the stored value becomes the current watermark". A write interrupted half-way is not modelled.
- The timer in `scan` (`Timers.setTimeout`, `ticker`) runs forever, and it and `console.log` are event-loop plumbing (watcher.js:63-71). `RunPasses` stands for any finite prefix of that run.
- `fs.copyFileSync` (watcher.js:123) is a foreign call. A copy is a record of source path, destination path and the source's birth time; replacing an existing destination file is not modelled. The birth time in the record is not something the program writes; it is there for the properties to refer to.
- Filesystem errors thrown by `readdirSync`, `statSync` or `copyFileSync` end the process in the program. They are not modelled: every listing, stat and copy succeeds.
- `new Date().getTime()` (watcher.js:120) is the wall clock and is a parameter. Output names are not proved unique, because the program does not guarantee it. `NumberString` writes the plain decimal form; JavaScript switches to exponent notation only for magnitudes of 10^21 and more, far beyond any clock reading.
- `birthtimeMs` is a floating-point number. Birth times and the watermark are integers here; the program only compares them and takes their maximum.
- The order of entries from `readdirSync` is whatever the listing gives.
- `Harvest.ScanDirCopiesEligible`: it says each copied file was born after the threshold the call *started* from. The threshold may have risen by the time the file is examined, and the exact per-file test is `ScanDir` itself. It also does not say that no file is copied twice in one pass.
- `Harvest.ScanEntriesCopiesEligible`: the same bound as `ScanDirCopiesEligible`, for every prefix of a listing. It uses the threshold the loop started from, not the threshold when each file is examined, and it does not say that no file is copied twice.
- `Harvest.ScanEntryCopiesEligible`: the same bound for one iteration of the loop. For a directory entry it bounds every copy by the threshold the iteration started from, not the threshold each file of the subdirectory is examined under, and it does not say that no file is copied twice.
- `Names.ExtensionOf`: names are sequences of Unicode characters here. The JavaScript engine works on UTF-16 code units, because the patterns have no `u` flag, so its `.` consumes one code unit. The results differ when the character just before the trailing alphanumeric run lies outside the Basic Multilingual Plane. For `😀jpg`, `exec(...)[0]` is a lone low surrogate followed by `jpg`, while `ExtensionOf` gives `😀jpg`. The output name in the copy record differs in the same way. The filter `FileRegexTest` decides every name as the engine does, since the character before `jpg` is never a line terminator in either reading.
