# check_bitrot in Dafny

A model of `check_bitrot.py`, a bitrot checker. It walks a directory tree
and computes an MD5 digest for every file. It compares that digest with
the one stored in a sidecar file `<file>.md5` next to the file:

- with no sidecar, it creates one;
- when the stored digest matches, it does nothing;
- on a mismatch, it asks the operator and overwrites the sidecar only when
  the answer is "y".

At the end it reports how many files it checked.

The model has five modules, one file each:

- `PyStrings` (`py_strings.dfy`): the Python operations the script relies on. These are negative-index slicing `s[i:]`, `str.strip()` (Python 2 white space: space, `\t`, `\n`, `\v`, `\f`, `\r`) and POSIX `os.path.join`. It also defines `EndsWith`, the model's own suffix test, which states what the slice comparison and `join` compute.
- `IgnoreFilter` (`ignore_filter.dfy`): `isIgnoredFile`, for sidecars and vi backup files.
- `ChecksumEngine` (`checksum_engine.dfy`): `determineFileChecksum`. It is a `while` loop over a `ByteFile` object (the open file: its bytes and a read position) that feeds a `HashAccumulator` object. The accumulator records the bytes it was fed. The hash algorithm is a parameter `hash: seq<bv8> -> Digest`, where `Digest` is 32 lower-case hex characters like `hexdigest()`. The loop is proved against `Chunks`, the blocks that successive `read(blocksize)` calls return.
- `SidecarStore` (`sidecar_store.dfy`): the sidecar files on disk, modelled as a `map<string, string>` from sidecar path to file text. `os.path.isfile` is membership, `getChecksum` is a lookup followed by `strip()`, and `saveChecksum` is a map update that stores the text verbatim.
- `Reconciler` (`reconciler.dfy`): the loop in `main`. `Step` is the specification of one walk entry and `Run` is the specification of the whole walk. The method `CheckTree` (the loop, with `numFilesChecked`, the sidecar map and a reply cursor) and the method `CheckFile` (the loop body for an admitted file) are proved equal to them. Lemmas about `Step` and `Run` cover:
  - each decision branch;
  - the counter;
  - the frame (only a file's own sidecar is written, always with its current digest, and an existing one only after a "y");
  - the absence of `x.md5.md5` sidecars;
  - idempotence of a second run.

Inputs that the script gets from the operating system are parameters:

- The directory walk is a sequence of `Entry(root, name)` pairs, in `os.walk` order.
- File contents are a function `contents: string -> seq<bv8>` from full path to bytes.
- The operator's replies are a sequence of strings, consumed one per mismatch.
- The hash algorithm is a function.

When a mismatch finds no reply left, `raw_input` raises `EOFError` and the script dies. The model stops the run there (`halted`, and `completed == false` from `CheckTree`). Sidecars written before that point stay written, and the file being checked is not counted.

A file counts as a vi backup when its last character is `~`. Only that one character is tested, so `a~~` is ignored too (check_bitrot.py:34).

File contents are a function of the path string alone, independent of the sidecar map. Two facts keep that consistent for paths (links are a separate matter, see "## Left out"):

- An entry's name never contains `/`, so the full path of an admitted file never ends in `.md5` (`AdmittedPathNotSidecar`). No checked file is a sidecar.
- Two entries have the same sidecar only when their full paths are the same (`SidecarPathInjective`), so they also have the same content.

## Model

| member | source | states |
|---|---|---|
| `PyStrings.SliceFrom` | check_bitrot.py:29-30 | `filename[-4:]` has length `min(4, len)`, so the slice never raises |
| `PyStrings.SliceFromIsSuffix` | check_bitrot.py:30 | `s[i:]` is the suffix of `s` of that length, and a name shorter than four characters yields the whole name |
| `PyStrings.TrimLeft` | check_bitrot.py:57 | the left half of `strip()`: the result is no longer than the input and does not start with white space |
| `PyStrings.TrimRight` | check_bitrot.py:57 | the right half of `strip()`: the result is no longer than the input and does not end with white space |
| `PyStrings.Strip` | check_bitrot.py:57 | the result of `strip()` neither starts nor ends with white space, and a string without surrounding white space is returned unchanged |
| `PyStrings.StripSurrounds` | check_bitrot.py:57 | `strip()` removes only white space: the input is the result with all-white-space strings in front of it and behind it |
| `PyStrings.TrimLeftRemovesSpace` | check_bitrot.py:57 | the leading part that `strip()` drops is all white space, and the rest is a suffix of the input |
| `PyStrings.TrimRightRemovesSpace` | check_bitrot.py:57 | the trailing part that `strip()` drops is all white space, and the rest is a prefix of the input |
| `PyStrings.Join` | check_bitrot.py:93 | `os.path.join(root, filename)` ends with `filename` |
| `PyStrings.JoinDirectory` | check_bitrot.py:93 | for a relative name, the joined path is `root` (plus a separator unless `root` is empty or ends in one) followed by the name |
| `IgnoreFilter.IsIgnoredFile` | check_bitrot.py:25-36 | a non-empty name is ignored if and only if it ends with `.md5` (case-sensitive) or its last character is `~` |
| `IgnoreFilter.SidecarNameIsIgnored` | check_bitrot.py:31 | every sidecar name `name + ".md5"` is ignored, so a sidecar is never checksummed |
| `IgnoreFilter.IgnoredIndependentOfDirectory` | check_bitrot.py:29-36 | the decision does not depend on the directory in front of the name (for names of at least four characters, or behind a path separator) |
| `ChecksumEngine.BlockEnd` | check_bitrot.py:46-49 | where `read(size)` stops: never before the position and never past the end of the file |
| `ChecksumEngine.Chunks` | check_bitrot.py:46-49 | the blocks of successive `read(blocksize)` calls before the first empty one; there are none exactly when the file is empty or the block size is 0 |
| `ChecksumEngine.ChunksPartition` | check_bitrot.py:46-49 | the successive reads partition the file: for a non-zero block size they concatenate to the content; each block is non-empty and at most `blocksize` long; all but the last are full; an empty file gives no block |
| `ChecksumEngine.ChunksAt` | check_bitrot.py:46-49 | a read at position `start` returns the first remaining block, and the later reads return the blocks of the rest |
| `ChecksumEngine.ConcatAppend` | check_bitrot.py:48 | feeding two runs of blocks feeds their concatenation |
| `ChecksumEngine.ByteFile.Open` | check_bitrot.py:45 | a freshly opened file is at position 0 over the given bytes |
| `ChecksumEngine.ByteFile.Read` | check_bitrot.py:46 | `read(size)` returns the bytes from the position up to `size` further (to the end for a negative size; nothing for 0) and advances the position past them |
| `ChecksumEngine.HashAccumulator.constructor` | check_bitrot.py:96 | a fresh hash object has been fed nothing |
| `ChecksumEngine.HashAccumulator.Update` | check_bitrot.py:48 | `update(block)` appends the block to the bytes fed and records the call |
| `ChecksumEngine.HashAccumulator.HexDigest` | check_bitrot.py:50 | the digest is the hash of exactly the bytes fed |
| `ChecksumEngine.DetermineFileChecksum` | check_bitrot.py:39-50 | the `update` calls are exactly the successive reads of the file, so the accumulator is fed exactly the file's bytes in order, and the digest is `hash(content)` for every non-zero block size (the reads for size 0 are empty) |
| `SidecarStore.SidecarPath` | check_bitrot.py:99 | the sidecar path is the file path followed by `.md5` |
| `SidecarStore.SidecarPathInjective` | check_bitrot.py:99 | distinct files have distinct sidecars |
| `SidecarStore.IsFile` | check_bitrot.py:102 | `os.path.isfile` on a sidecar path is membership in the sidecar map |
| `SidecarStore.GetChecksum` | check_bitrot.py:52-59 | the checksum read back has no surrounding white space, and equals the stored text when that text has none |
| `SidecarStore.GetChecksumSurrounds` | check_bitrot.py:56-57 | the checksum read back is the stored text with only white space removed in front of it and behind it |
| `SidecarStore.SaveChecksum` | check_bitrot.py:61-67 | after saving, the sidecar exists and holds exactly the checksum; the set of sidecars grows by at most that path; every other sidecar keeps its text |
| `SidecarStore.DigestIsStripped` | check_bitrot.py:50 | a hex digest has no surrounding white space |
| `SidecarStore.SaveThenGet` | check_bitrot.py:56-57 | reading right after saving `d` returns `strip(d)`, which is `d` itself when `d` has no surrounding white space |
| `SidecarStore.SaveDigestThenGet` | check_bitrot.py:65-66 | reading right after saving a digest returns that digest |
| `Reconciler.Admitted` | check_bitrot.py:91 | an entry is admitted if and only if it is in the walk and not ignored |
| `Reconciler.AdmittedMultiplicity` | check_bitrot.py:89-91 | every admitted entry occurs as often as in the walk, so an entry listed twice is checked twice; an ignored entry never occurs |
| `Reconciler.FullFilename` | check_bitrot.py:93 | `os.path.join(root, filename)` for one walk entry |
| `Reconciler.FileDigest` | check_bitrot.py:96 | the digest `Step` compares: the hash of the file's bytes; `CheckFile` proves it equal to what `determineFileChecksum` returns with a fresh accumulator and the default block size |
| `Reconciler.Start` | check_bitrot.py:77 | the state before the walk: `numFilesChecked = 0`, no reply read, not stopped |
| `Reconciler.Confirms` | check_bitrot.py:108 | a reply confirms when, stripped of surrounding white space, it is exactly `y` |
| `Reconciler.Step` | check_bitrot.py:91-120 | one entry of the inner loop (skip, create, keep, or ask and overwrite on "y"): it reads at most one reply, counts at most one file, never removes a sidecar, and leaves an ignored entry's state unchanged |
| `Reconciler.Run` | check_bitrot.py:86-121 | the loop over the walk, stopping once halted: nothing changes after a halt, replies are read forward, no sidecar is removed, and the count grows by at most the number of entries |
| `Reconciler.StepCreatesMissing` | check_bitrot.py:113-117 | with no sidecar, the sidecar is created holding the new digest; the count grows by one and no reply is read |
| `Reconciler.StepLeavesMatch` | check_bitrot.py:102-112 | with a matching sidecar, only the count changes (by one); no reply is read |
| `Reconciler.StepMismatch` | check_bitrot.py:105-110 | on a mismatch exactly one reply is read and the count grows by one; the sidecar holds the new digest if and only if the stripped reply is "y", and is otherwise left as it was; with no reply left the run stops and nothing else changes |
| `Reconciler.DeclinedMismatchAsksAgain` | check_bitrot.py:105-110 | a declined mismatch stays a mismatch: visiting the same file again counts it again, reads the next reply and overwrites only if that reply is "y" |
| `Reconciler.StepFrame` | check_bitrot.py:91-120 | one entry writes at most its own sidecar and removes none; an ignored entry writes none |
| `Reconciler.RunCounts` | check_bitrot.py:77 | a completed run counts exactly the admitted entries; a stopped one counts no more; at most one reply is read per counted file |
| `Reconciler.RunFrame` | check_bitrot.py:86-120 | a run changes no sidecar other than those of admitted entries, and deletes none |
| `Reconciler.StepWritesDigest` | check_bitrot.py:99-117 | whatever one entry creates or changes is its own sidecar, the entry is admitted, and the sidecar holds the file's current digest |
| `Reconciler.RunWritesDigests` | check_bitrot.py:86-121 | in every run (also one that stops early, or reads "n"), each sidecar created or changed belongs to an admitted entry of the walk and holds that file's current digest |
| `Reconciler.DeclinedAll` | check_bitrot.py:108 | no reply read in a range of the replies says "y" after stripping |
| `Reconciler.RunOverwritesOnlyOnYes` | check_bitrot.py:102-112 | in a run in which no reply read says "y", every existing sidecar keeps its text; only missing sidecars are created |
| `Reconciler.DoubledSuffix` | check_bitrot.py:99 | a path that does not end in `.md5` does not end in `.md5.md5` once `.md5` is appended |
| `Reconciler.AdmittedPathNotSidecar` | check_bitrot.py:91-93 | the full path of an admitted entry never ends in `.md5` |
| `Reconciler.WrittenKeysNotDoubled` | check_bitrot.py:99 | no sidecar a run can write ends in `.md5.md5` |
| `Reconciler.StepSettlesOwnSidecar` | check_bitrot.py:102-116 | after an admitted entry that neither stops the run nor reads a "no", its sidecar holds its current digest |
| `Reconciler.StepKeepsSettled` | check_bitrot.py:99-117 | such a step keeps every file whose sidecar matched still matching (distinct files have distinct sidecars), and makes its own file match |
| `Reconciler.RunSettles` | check_bitrot.py:86-121 | in a completed run in which every reply read was "y", a file whose sidecar matched before, or that the run visits, has a matching sidecar at the end |
| `Reconciler.RunEstablishesConsistency` | check_bitrot.py:86-121 | after a completed run in which every reply read was "y", every admitted file's sidecar matches its current digest |
| `Reconciler.RunOnConsistent` | check_bitrot.py:102-112 | on sidecars that all match, a run changes no sidecar, reads no reply and counts every admitted entry |
| `Reconciler.Idempotent` | check_bitrot.py:86-121 | after a completed run in which every mismatch was confirmed, a second run over unchanged contents leaves the sidecars identical, reads no reply and counts the same; the second walk may list the same admitted entries in any order, and may also list the new sidecars |
| `Reconciler.CheckFile` | check_bitrot.py:91-117 | the per-file body (digest with a fresh accumulator and the default block size, then create, keep, or overwrite on "y", then count) computes exactly `Step` |
| `Reconciler.CheckTree` | check_bitrot.py:72-121 | the loop computes exactly `Run` from no files counted and no reply read; a completed run counts the admitted entries and touches only their sidecars |

## Left out

- `os.walk`: its traversal order, the treatment of symbolic links and unreadable directories (check_bitrot.py:86). The walk is an input sequence of (root, filename) entries, and the nested `for` loops over directories and files are one loop over that sequence.
- The MD5 algorithm and `hexdigest` formatting (check_bitrot.py:14, 50). These are a foreign library. The hash is a function parameter whose results are 32 lower-case hex characters.
- Real `open`, `read`, `write`, `close` and `os.path.isfile` (check_bitrot.py:45, 56-58, 65-67, 102). File contents are a given function, and sidecars are a map. A directory named like a sidecar (which `isfile` rejects and `open` then fails on) is therefore not modelled.
- Fatal I/O errors: an unreadable file or sidecar, or an unwritable sidecar. Nothing in the script handles them, so they are not modelled.
- `print` output and the prompt text, `sys.argv` and the starting directory (check_bitrot.py:80-82, 85, 88, 106-109, 121, 124). The only input-side effect kept is that a reply is read.
- The unused locals `checkFileExtensionIndex` in `main` (check_bitrot.py:75) and `path = root.split(os.sep)` (check_bitrot.py:87).
- Python 2 byte strings are modelled as Dafny strings of characters. The sidecar text is compared character by character, with no encoding or newline translation.
- `IgnoreFilter.IsIgnoredFile`: requires a non-empty name. On an empty name `filename[-1]` raises, and a directory listing never yields one.
- Concurrent modification of files during a run.
- Files reachable under two paths (symbolic or hard links). `os.walk` lists a link to a regular file among `files`, so a link may be admitted. Contents depend on the path string only, so a link to a sidecar is not seen to change when that sidecar is written, and a run that rewrites such a sidecar is modelled as idempotent although the link's next digest differs.
