# zgrep search core in Dafny

This project models the search engine of zgrep, `utils/search.go`. zgrep searches a directory tree concurrently for an exact byte pattern. The project models the engine without its goroutine and channel wiring, in three modules.

- **`BoyerMoore`** (`boyer_moore.dfy`) is the `stringFinder`, Go's Boyer–Moore search rewritten for `[]byte`.
  - `StringFinder` is a class. Its `badCharSkip` and `goodSuffixSkip` tables are arrays, filled by the constructor with the same four counted loops as `MakeStringFinder`.
  - `Next` is the cursor loop of `next`.
  - Every table entry is proved equal to an independent definition:
    - `BadCharShift` is the distance from the last index back to the rightmost earlier copy of a byte.
    - `GoodSuffixShift` is the matched-suffix length plus the least frame shift consistent with what the failed comparison read.
  - From these tables, `Next` is proved to return exactly `FirstOccurrence`: the leftmost index at which a naive search finds the pattern, or -1.
  - The proof also shows that, for a non-empty pattern, every shift is at least one; that every array access is in bounds; and that the loop terminates.
- **`LineScan`** (`line_scan.dfy`) is the per-file loop of `worker`.
  - The file is given as its sequence of lines.
  - The result is the sequence of records the worker sends: `TextMatch(path, lineNumber, line)` or `BinaryMatch(path)`.
  - `Worker` is one worker on its own. It builds the finder once, then scans the files it is handed in order.
- **`WalkFilter`** (`walk_filter.dfy`) is the decision the `filepath.Walk` callback makes for one visited entry. Its input is the components of the entry's path relative to the root, plus whether the entry is a directory.

Three behaviours of the code that are easy to miss. The model keeps each as the code has it:

- **Empty pattern.** Nothing in `utils/search.go` rejects an empty pattern. `MakeStringFinder` then fills all 256 `badCharSkip` entries with `len(pattern)`, which is 0, and leaves `goodSuffixSkip` empty. `next` returns 0 at once. No member here requires a non-empty pattern, and `Next` still returns `FirstOccurrence`, which is 0 for the empty pattern. Only the positive-shift bounds of `TablesHoldShifts` are stated for a non-empty pattern.
- **Hidden directories.** The comment at utils/search.go:45 says "skip the entire directory", but the `continue` beside it only moves to the next path component. The callback never returns `filepath.SkipDir`, so the walk still descends into hidden directories, and each entry below them is rejected on its own. The model keeps this per-path decision.
  - `HiddenSubtreeNeverQueued` shows that no file below a hidden directory is queued.
  - `VisibleFileQueued` shows that a file with no hidden component is queued.
  - Together they show that the queued files are exactly those whose path has no hidden component. Pruning every hidden directory other than the root would queue the same files.
- **Root path.** The root's own relative path is `.`, which starts with a dot. So when the root given is a regular file rather than a directory, that file is never queued (`HiddenPathExamples`).

## Model

| member | source | states |
|---|---|---|
| `BoyerMoore.Max` | utils/search.go:178-183 | the result is at least each argument and is one of them |
| `BoyerMoore.FirstOccurrence` | utils/search.go:159-160 | -1 exactly when the pattern occurs nowhere in the text; otherwise an index `r` with `text[r..r+len] == pattern`, no occurrence starts before `r`, and a text shorter than the pattern gives -1 |
| `BoyerMoore.BadCharShift` | utils/search.go:75-81 | the shift for byte `b` lies in `[1, len]` for a non-empty pattern; it equals `len` exactly when `b` is absent from `pattern[..last]`; otherwise it is `last - i` for the rightmost such `i` |
| `BoyerMoore.GoodSuffixShift` | utils/search.go:84-104 | the entry for mismatch index `j` is `len(suffix)` plus the least frame shift consistent with the matched suffix and the mismatched byte, so it lies in `[len - j, 2*len - 1 - j]` |
| `BoyerMoore.LeastShiftFrom` | utils/search.go:84-104 | the least consistent shift at or above `d`: it is consistent and no smaller one from `d` is |
| `BoyerMoore.ConsistentBeyondMismatch` | utils/search.go:95-103 | a shift past the mismatched byte is consistent exactly when the pattern's suffix from the new frame start is a prefix of the pattern (the second doc-comment case) |
| `BoyerMoore.CommonSuffixSlices` | utils/search.go:150-157 | the byte-by-byte common-suffix relation is equality of the two suffixes |
| `BoyerMoore.LongestCommonSuffix` | utils/search.go:150-157 | returns `k <= min(len a, len b)` such that `a` and `b` end in the same `k` bytes, and either `k` reached one of the lengths or the bytes before differ |
| `BoyerMoore.SuffixMatchOfCommonSuffix` | utils/search.go:140 | the common suffix of `pattern` and `pattern[1:i+1]` is a run of the pattern that recurs ending at `i`, with differing bytes before the two copies unless `i` is reached |
| `BoyerMoore.SuffixMatchUnique` | utils/search.go:140 | only one length satisfies the longest-common-suffix condition |
| `BoyerMoore.WrittenShiftConsistent` | utils/search.go:141-143 | when the second pass writes slot `last - lenSuffix`, the shift `last - i` it records is consistent for that slot and does not exceed the slot index |
| `BoyerMoore.SuffixFound` | utils/search.go:138-145 | every consistent shift `last - i` not past the mismatch index `j` is found at step `i`: `lenSuffix == last - j` and the guard at 141 holds, so the second pass writes slot `j` |
| `BoyerMoore.FirstPassCandidates` | utils/search.go:128-137 | after the first pass every slot holds a consistent shift with no smaller consistent shift beyond its mismatch index |
| `BoyerMoore.KeptSlotCandidate` | utils/search.go:139-145 | a slot the step leaves alone keeps its candidate once shift `last - i` is settled |
| `BoyerMoore.WrittenSlotCandidate` | utils/search.go:141-143 | the slot the step writes holds a valid candidate afterwards |
| `BoyerMoore.SlotAfterWrite` | utils/search.go:141-143 | after a writing step, every slot holds a candidate, written or kept |
| `BoyerMoore.WriteKeepsAllCandidates` | utils/search.go:141-143 | a writing step keeps a candidate in every slot |
| `BoyerMoore.SuffixStepWrites` | utils/search.go:141-143 | the table invariant of the second pass is kept by a step that writes |
| `BoyerMoore.MatchKeepsAllCandidates` | utils/search.go:139-141 | a step whose guard fails keeps a candidate in every slot |
| `BoyerMoore.SuffixStepKeeps` | utils/search.go:139-141 | the table invariant of the second pass is kept by a step that writes nothing |
| `BoyerMoore.SettledCandidates` | utils/search.go:138-145 | once every shift has been examined, every slot holds exactly `GoodSuffixShift` |
| `BoyerMoore.FillBadCharSkip` | utils/search.go:115-125 | after the two loops, every entry of the 256-entry table equals `BadCharShift` |
| `BoyerMoore.LastPrefixStep` | utils/search.go:130-134 | testing `HasPrefix(pattern, pattern[i+1:])` moves `lastPrefix` to the next index after `i` at which a prefix of the pattern starts again |
| `BoyerMoore.PrefixSlotStep` | utils/search.go:136 | writing `lastPrefix + last - i` to slot `i` extends the finished slots of the first pass by one |
| `BoyerMoore.PrefixPass` | utils/search.go:127-137 | after the first pass, slot `j` holds `len(suffix)` plus the next prefix start after `j` |
| `BoyerMoore.SuffixPass` | utils/search.go:138-145 | after the second pass, every slot holds `GoodSuffixShift` |
| `BoyerMoore.MatchForcesConsistentShift` | utils/search.go:84-94 | an occurrence to the right of a frame that mismatched at `j` makes its distance a consistent shift |
| `BoyerMoore.MatchForcesRun` | utils/search.go:84-94 | an occurrence overlapping a partly matched frame makes the matched part of the pattern recur at the shift |
| `BoyerMoore.BadCharSkipSafe` | utils/search.go:79-81 | no occurrence starts in a frame the bad-character shift jumps over |
| `BoyerMoore.GoodSuffixSkipSafe` | utils/search.go:84-87 | no occurrence starts in a frame the good-suffix shift jumps over |
| `BoyerMoore.SkipMissesNoMatch` | utils/search.go:173 | the advance `max(badCharSkip[text[i]], goodSuffixSkip[j])` moves the frame forward and skips no occurrence |
| `BoyerMoore.StringFinder.TablesHoldShifts` | utils/search.go:75-104 | bad-character entries lie in `[1, len]` for a non-empty pattern and are `len` exactly for bytes absent from `pattern[:last]`; good-suffix entries move the cursor past the mismatched byte |
| `BoyerMoore.StringFinder.constructor` | utils/search.go:107-148 | the finder keeps the pattern, and both tables hold exactly the shifts the pattern determines |
| `BoyerMoore.StringFinder.Next` | utils/search.go:159-176 | the result is `FirstOccurrence(pattern, text)`: the leftmost match index, or -1 exactly when there is none; the finder is not changed |
| `BoyerMoore.MississiGoodSuffixSkip` | utils/search.go:88-93 | for "mississi", `goodSuffixSkip[3] == 7` |
| `BoyerMoore.AbcxxxabcGoodSuffixSkip` | utils/search.go:95-103 | for "abcxxxabc", `goodSuffixSkip[3] == 11` |
| `BoyerMoore.FoundExample` | utils/search.go:159-160 | "abc" in "xxabcxx" is found at 2 |
| `BoyerMoore.NotFoundExample` | utils/search.go:159-160 | "abc" in "xyz" gives -1 |
| `LineScan.ScanFile` | utils/search.go:199-220 | the records equal `ScanRecords`: a binary file gives one `BinaryMatch` if some line matches and nothing otherwise; a text file gives its `TextRecords` |
| `LineScan.Worker` | utils/search.go:185-227 | the records are those of each file in order; a file that fails to open adds none |
| `LineScan.TextRecordsExactly` | utils/search.go:211-219 | a text file yields `TextMatch(n, line n)` exactly for the matching lines `n`, numbered from 1, with nothing else and line numbers strictly increasing |
| `LineScan.BinaryFileRecords` | utils/search.go:205-214 | a binary file yields at most one record, a `BinaryMatch`, and yields it exactly when some line matches |
| `LineScan.TextFileRecords` | utils/search.go:215-217 | a text file never yields a `BinaryMatch` |
| `LineScan.BinaryDecidedByFirstLine` | utils/search.go:205-216 | whatever lines follow the first: a zero byte in the first line makes the scan yield at most one record, a `BinaryMatch`; no zero byte there makes it yield only `TextMatch` records |
| `LineScan.EmptyFileRecords` | utils/search.go:203 | an empty file yields nothing |
| `WalkFilter.ShouldQueue` | utils/search.go:40-55 | an entry is queued exactly when it is not a directory and no component of its relative path starts with `.` |
| `WalkFilter.HiddenSubtreeNeverQueued` | utils/search.go:42-49 | nothing below a directory with a hidden component is queued, although the walk still enters it |
| `WalkFilter.VisibleFileQueued` | utils/search.go:52-54 | a visible file below visible directories is queued |
| `WalkFilter.HiddenPathExamples` | utils/search.go:36-55 | `.git/config` and `a/.hidden/file.txt` are not queued and `a/visible.txt` is; the root itself (relative path `.`) never is |

## Left out

- Goroutines, channels, `sync.WaitGroup` and the watcher that closes `results` (utils/search.go:14-27, 63-65, 186, 192). They are concurrency and fan-in. `Worker` models one worker processing, in order, the files it receives.
- `filepath.Walk`, `filepath.Rel`, `strings.Split` and walk-error handling (utils/search.go:31-39, 57-60). These are filesystem I/O and library calls. `ShouldQueue` takes the split components and the directory flag as inputs.
- `os.Open`, `f.Close`, `bufio.Scanner` line splitting, its line-length limit and `scanner.Err()` (utils/search.go:193-199, 203-204, 221-225). These are file I/O. A file is given as `Opened(lines)` or `OpenFailed`, with its lines already split.
- `fmt` output formatting and diagnostics (utils/search.go:58, 64, 195, 213, 216, 222). Results are the abstract `Record` datatype, and diagnostics are not modelled.
- `bytes.IndexByte(text, 0) != -1` is modelled as membership of byte 0 in the line.
- `bytes.HasPrefix` is modelled by `HasPrefix`.
- `BoyerMoore.StringFinder.Next` is proved against the whole text as one `seq`. It does not model Go's `int` overflow of `i + max(...)`, because text lengths stay far below the integer range.
