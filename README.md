# Duplicate image detector: a Dafny model of its decision logic

`duplicated_img_detect_improved.py` scans a directory of photos and collects, for each
file, its size, a content hash, the camera model and the pixel dimensions. It groups
files whose four facts agree and, on request, deletes all but one file of each group
after asking the user. This project models the deterministic part of that pipeline and
proves what each step promises:

- **Identifier** (`metadata.dfy`). `get_identifier` builds the 4-tuple
  `(camera model, hash, resolution, size)`, with `""`, `""` and `(0, 0)` as defaults.
  Two records get equal identifiers exactly when they are duplicates field by field,
  so "same identifier" is an equivalence relation.
- **Grouping** (`grouping.dfy`). This is the tail of `process_images_parallel`.
  - The finished records arrive as a sequence in completion order; a failed record arrives as `None`.
  - The dictionary is modelled as a key order plus a map, because Python dictionaries keep insertion order and the removal step walks the groups in that order.
  - The keys of the result are exactly the identifiers shared by two or more records. Each bucket holds exactly those records, in order.
- **Resolution** (`resolution.dfy`).
  - Parsing ExifTool's output: strip it, split on `x` or else on a newline, and require exactly two `int()`-parsable parts.
  - Choosing a strategy by the lower-cased `Path.suffix`, and by whether ExifTool is available.
  - The results of the subprocess and of PIL are inputs.
- **Python text primitives** (`text.dfy`). `str.strip()`, with Python's whitespace set; `str.lower()` on ASCII; `str.split(c)`; `int()` in base 10; and `str(n)`. Each comes with the lemmas the other modules need.
- **Keeper selection** (`selection.dfy`). `suggest_best_file` is a scan that keeps the first index with the greatest score. The float score `0.9·w·h + 0.1·size/10^6` is replaced by the exact integer `9000000·w·h + size`, which is 10^7 times it. Resolution and size are both part of the identifier, so all members of a group score the same and the scan keeps the group's first file: `--auto_select_best` always keeps file #1.
- **Size unit** (`size_format.dfy`). The unit loop of `format_file_size`, computed on exact reals.
- **Removal** (`removal.dfy`). `remove_duplicate_files`.
  - The global and the per-group `yes` gates, and parsing of the number of the file to keep.
  - Removing every other member that `os.access` reports writable and `os.remove` does not refuse.
  - The totals in the summary.
  - The filesystem is a class whose set of existing paths shrinks. Writability and removal failure are fixed sets of paths.
  - The user's answers are strings supplied up front: one global answer, and one confirmation and one keep answer per group.

Each deciding method is proved against a specification function. Each loop goes one item at a time:
- `GroupByIdentifier` is proved against `FirstSeen`/`Bucket`;
- `SuggestBestFile` against `Keeper`;
- `RemoveDuplicateFiles` against `RemoveAll`.

Lemmas then state the properties of those functions.

## Model

| member | source | states |
|---|---|---|
| Metadata.GetIdentifier | duplicated_img_detect_improved.py:33-35 | an absent camera model or hash becomes `""`, an absent resolution `(0, 0)`, and the size is kept |
| Metadata.IdentifierEqualIffDuplicate | duplicated_img_detect_improved.py:33-35 | two records have equal identifiers iff they agree on size and agree on camera model, hash and resolution once absence is read as the default; the path never matters |
| Metadata.DuplicateIsEquivalence | duplicated_img_detect_improved.py:33-35 | being duplicates is reflexive, symmetric and transitive |
| Grouping.Present | duplicated_img_detect_improved.py:206-212 | the collected list holds exactly the records that some future produced, and is no longer than the results |
| Grouping.CollectResults | duplicated_img_detect_improved.py:198-212 | the collection loop appends exactly the produced records, in completion order |
| Grouping.Bucket | duplicated_img_detect_improved.py:216-220 | a bucket holds exactly the records carrying its identifier |
| Grouping.FirstSeen | duplicated_img_detect_improved.py:215-220 | the dictionary's key order has no repeats and contains exactly the identifiers that occur |
| Grouping.GroupByIdentifier | duplicated_img_detect_improved.py:215-220 | the loop that creates an empty list for an identifier not yet in `duplicates` and then appends the metadata to that identifier's list yields a well-formed dictionary in first-seen key order, with a key for exactly the identifiers that occur, each bucket equal to `Bucket` of the records |
| Grouping.KeepShared | duplicated_img_detect_improved.py:223-223 | the filtered key order keeps exactly the keys whose bucket has more than one record, without repeats, in their original relative order |
| Grouping.FilterDuplicates | duplicated_img_detect_improved.py:223-223 | the comprehension keeps exactly the buckets of size above one, unchanged, in the original key order, and the result is well formed |
| Grouping.BucketSizeAtLeastTwo | duplicated_img_detect_improved.py:216-223 | a bucket has two or more records iff two different records share its identifier |
| Grouping.FindDuplicates | duplicated_img_detect_improved.py:214-223 | the returned keys are exactly the identifiers shared by at least two produced records, in first-seen order; each bucket is exactly their records in order; no bucket is a singleton |
| Grouping.BucketsPartition | duplicated_img_detect_improved.py:215-223 | a record lies in the bucket of its own identifier and no other; two records in one bucket are duplicates; duplicates share every bucket |
| Text.StripLeft | duplicated_img_detect_improved.py:79-79 | leading removal drops only whitespace and stops at a non-space character |
| Text.StripRight | duplicated_img_detect_improved.py:79-79 | trailing removal drops only whitespace and stops at a non-space character |
| Text.StripPadded | duplicated_img_detect_improved.py:79-79 | `strip` of a text padded with whitespace on both sides is the text itself |
| Text.StripEnds | duplicated_img_detect_improved.py:79-79 | the stripped text is empty or starts and ends with a non-space character |
| Text.StripSlice | duplicated_img_detect_improved.py:79-79 | the stripped text is what remains after removing a run of whitespace at each end |
| Text.Lower | duplicated_img_detect_improved.py:103-103 | lower-casing keeps the length and maps each character on its own |
| Text.CountZero | duplicated_img_detect_improved.py:81-81 | a character occurs zero times iff it is absent |
| Text.Split | duplicated_img_detect_improved.py:82-82 | `split` always yields at least one piece |
| Text.JoinSplit | duplicated_img_detect_improved.py:82-82 | joining the pieces of `split` with the separator gives back the text |
| Text.SplitPieces | duplicated_img_detect_improved.py:82-82 | `split` yields one piece more than there are separators, and no piece contains the separator |
| Text.SplitTwo | duplicated_img_detect_improved.py:82-82 | `split` yields exactly `[a, b]` iff the text is `a`, separator, `b`, with no separator in `a` or `b` |
| Text.ParseInt | duplicated_img_detect_improved.py:84-84 | `int()` fails on a text that is blank after stripping, and on any text holding one of the information separators U+001C..U+001F, which `int()` does not skip as whitespace although `str.strip()` does |
| Text.ParseSigned | duplicated_img_detect_improved.py:84-84 | a stripped text with a value is not empty |
| Text.NatToString | duplicated_img_detect_improved.py:278-278 | the decimal rendering is a non-empty string of digits |
| Text.IntToStringRoundTrip | duplicated_img_detect_improved.py:84-84 | `int(str(n)) == n` for every integer; CPython refuses texts of more than 4300 digits by default, a limit the model does not have |
| Resolution.PairOf | duplicated_img_detect_improved.py:82-84 | unpacking and converting succeeds iff there are exactly two parts and both parse as integers |
| Resolution.ParseDimensions | duplicated_img_detect_improved.py:77-96 | a non-zero return code, or stripped output with neither `x` nor a newline, gives `None` |
| Resolution.ParseStripped | duplicated_img_detect_improved.py:79-96 | output with neither separator gives `None` |
| Resolution.ParseDimensionsIff | duplicated_img_detect_improved.py:77-96 | a pair is returned iff the return code is 0 and the stripped output has exactly one separator (`x` if present, else newline) with the two integers on either side |
| Resolution.InfoSeparatorInWidth | duplicated_img_detect_improved.py:77-96 | an information separator (U+001C..U+001F) anywhere in the width gives `None`, even right before the `x` where stripping the whole output leaves it in place |
| Resolution.InfoSeparatorRefused | duplicated_img_detect_improved.py:77-96 | the output `5<U+001C>x3` with return code 0 gives `None`: the split leaves `5<U+001C>`, which `int()` refuses |
| Resolution.ParseDimensionsSeparatorCount | duplicated_img_detect_improved.py:81-96 | too many or too few separators always give `None` |
| Resolution.DimensionsRoundTrip | duplicated_img_detect_improved.py:72-96 | ExifTool's `W\nH\n` and `WxH\n` outputs both read back as `(W, H)` |
| Resolution.ViaExifTool | duplicated_img_detect_improved.py:68-99 | an exception in the subprocess call gives `None` |
| Resolution.LastDot | duplicated_img_detect_improved.py:103-103 | the index of the last dot, or -1 when there is none |
| Resolution.Suffix | duplicated_img_detect_improved.py:103-103 | `Path.suffix` is empty or a final `.xyz` part with no further dot that is shorter than the name; a name without a dot has none |
| Resolution.SuffixOfDottedName | duplicated_img_detect_improved.py:103-103 | a non-empty stem, a dot and a non-empty extension without dots has suffix `.` plus that extension |
| Resolution.GetImageResolution | duplicated_img_detect_improved.py:101-122 | on the lower-cased suffix: `.arw` with ExifTool uses only ExifTool; `.arw` without it and every other non-raster suffix give `None`; a raster suffix uses PIL's size, falling back to ExifTool only when PIL fails and ExifTool is available, else `None` |
| Resolution.WithoutExifToolIgnoresIt | duplicated_img_detect_improved.py:106-122 | without ExifTool, its output cannot affect the result |
| Resolution.NonRasterIgnoresPil | duplicated_img_detect_improved.py:106-110 | for a non-raster extension, PIL's outcome cannot affect the result |
| Resolution.ResolutionComesFromAStrategy | duplicated_img_detect_improved.py:101-122 | the result is `None`, PIL's size, or ExifTool's answer when available: it is never invented |
| Resolution.ExtensionCaseInsensitive | duplicated_img_detect_improved.py:103-106 | two names equal after lower-casing have the same lower-cased suffix and the same resolution result, whatever the tool outcomes |
| Resolution.ExtensionIgnoresCase | duplicated_img_detect_improved.py:103-103 | names equal after lower-casing have equal lower-cased suffixes |
| Selection.Score | duplicated_img_detect_improved.py:240-248 | the integer score is exactly 10^7 times `0.9·w·h + 0.1·size/10^6` |
| Selection.ScoreOrdersAsExact | duplicated_img_detect_improved.py:248-250 | integer scores compare as the exact scores do, also against the initial `-1` |
| Selection.MaxScore | duplicated_img_detect_improved.py:236-252 | the running maximum bounds every score, is at least the initial value, and is attained unless it is the initial value |
| Selection.FirstWithScore | duplicated_img_detect_improved.py:250-252 | the first index carrying a score, with no earlier index carrying it |
| Selection.KeeperIsFirstBest | duplicated_img_detect_improved.py:233-254 | 0 for an empty group; otherwise in range; when some score beats -1, the keeper's score is the greatest and every earlier score is strictly smaller; when none does, 0 |
| Selection.KeeperSnoc | duplicated_img_detect_improved.py:250-252 | one more record becomes the keeper only by strictly beating the best so far |
| Selection.SuggestBestFile | duplicated_img_detect_improved.py:233-254 | the scan returns `Keeper`: the first index of a greatest score, or 0 |
| Selection.SameIdentifierKeepsFirst | duplicated_img_detect_improved.py:233-254 | members that share one identifier (`get_identifier`, :33-35) share their score, so the scan keeps index 0 |
| Selection.BucketKeepsFirst | duplicated_img_detect_improved.py:233-254 | every bucket of the duplicate dictionary gets keeper 0: with `--auto_select_best`, file #1 of each group is always the one kept |
| SizeFormat.FormatFileSize | duplicated_img_detect_improved.py:225-231 | the unit is B below 1024, KB below 1024², MB below 1024³ and GB from there on; the value is the size divided by 1024 to the unit's power |
| SizeFormat.DividedBelow | duplicated_img_detect_improved.py:228-230 | comparing the divided value with 1024 is comparing the size with the next power of 1024, and one more division is division by the next power |
| Removal.ConfirmationRule | duplicated_img_detect_improved.py:262-263 | an answer confirms iff, with surrounding whitespace ignored, it is three letters reading `yes` in any case |
| Removal.YesLetters | duplicated_img_detect_improved.py:262-263 | an answer confirms iff its stripped form is exactly three characters, `y`, `e`, `s`, each in either case |
| Removal.ShoutedYesConfirms | duplicated_img_detect_improved.py:283-283 | ` YES` followed by a newline confirms |
| Removal.SkipDoesNotConfirm | duplicated_img_detect_improved.py:284-289 | `skip` does not confirm, so the group is skipped |
| Removal.KeepIndex | duplicated_img_detect_improved.py:295-303 | the kept index is in range; a blank or non-integer answer keeps file #1; a typed number from 1 to n keeps exactly index number − 1; a non-zero index is always the typed number minus one |
| Removal.KeepIndexOfTypedNumber | duplicated_img_detect_improved.py:295-303 | typing `k` with 1 ≤ k ≤ n, padded with any whitespace, keeps index k-1; any other number keeps index 0 |
| Removal.FileSystem.constructor | duplicated_img_detect_improved.py:309-310 | a filesystem with the given existing, writable and failing paths |
| Removal.FileSystem.CanWrite | duplicated_img_detect_improved.py:309-309 | `os.access(path, W_OK)` is false for a path that does not exist |
| Removal.FileSystem.Remove | duplicated_img_detect_improved.py:310-310 | `os.remove` succeeds iff the path exists and is not refused, and then that path alone disappears |
| Removal.SweepGroup | duplicated_img_detect_improved.py:306-317 | the inner loop only removes files and never changes permissions |
| Removal.KeepFor | duplicated_img_detect_improved.py:291-303 | the kept index of a non-empty group is in range |
| Removal.Decide | duplicated_img_detect_improved.py:282-303 | a group is skipped iff the run is group by group and its answer is not `yes`; otherwise its kept index is in range |
| Removal.Apply | duplicated_img_detect_improved.py:282-317 | a skipped group changes nothing; a processed one only removes files |
| Removal.SweepGroups | duplicated_img_detect_improved.py:270-317 | the outer loop only removes files and never changes permissions |
| Removal.RemoveAll | duplicated_img_detect_improved.py:261-265 | in global mode, an answer other than `yes` cancels the run with nothing removed |
| Removal.DuplicateCount | duplicated_img_detect_improved.py:258-258 | when every group has at least two members, the logged count is at least the number of groups |
| Removal.RemoveDuplicateFiles | duplicated_img_detect_improved.py:256-319 | the logged count is the sum of (size − 1) over groups; cancellation is exactly a non-`yes` global answer; the final filesystem and the two totals are those of `RemoveAll` |
| Removal.SweepAll | duplicated_img_detect_improved.py:270-317 | the outer loop leaves the filesystem of `SweepGroups`, counts its removed members and adds up their sizes |
| Removal.ProcessGroup | duplicated_img_detect_improved.py:282-317 | one group: skipped without change, or the keeper chosen and every other member swept |
| Removal.RemoveGroupMembers | duplicated_img_detect_improved.py:306-317 | the inner loop leaves the filesystem of `SweepGroup`, counts its removed members and adds up their sizes |
| Removal.TotalSizeConcat | duplicated_img_detect_improved.py:312-313 | the space saved over two stretches of removals is the sum of both |
| Removal.SweepGroupTouchesOnlyMembers | duplicated_img_detect_improved.py:306-310 | a path that disappeared is the path of a visited member other than the kept one |
| Removal.SweepGroupExact | duplicated_img_detect_improved.py:306-317 | with distinct paths, a member's file is present afterwards iff it was present before and it is the kept one or was not removable; files outside the group are untouched |
| Removal.SweepGroupRemovesEveryRemovable | duplicated_img_detect_improved.py:306-313 | with distinct paths, every visited member other than the kept one that was removable at the start is counted as removed |
| Removal.SweepGroupRemovedWereRemovable | duplicated_img_detect_improved.py:309-313 | every member counted as removed was writable and not refused, and is gone |
| Removal.SweepGroupRemovedMembers | duplicated_img_detect_improved.py:306-317 | every member a group's sweep removed is one of the members visited and not the kept one |
| Removal.SweepGroupCountsEachFileOnce | duplicated_img_detect_improved.py:306-317 | a group's sweep counts no path twice, and the counted paths are exactly the files that disappeared |
| Removal.SweepGroupAtMostAllButOne | duplicated_img_detect_improved.py:306-307 | one group loses at most all members but the kept one |
| Removal.SweepGroupsRemovedWereRemovable | duplicated_img_detect_improved.py:270-317 | over all groups, every member counted as removed was removable at the start and is gone |
| Removal.SweepGroupsRemovedMembers | duplicated_img_detect_improved.py:270-317 | over all groups, every member counted as removed belongs to a processed group and is not that group's kept member |
| Removal.SweepGroupsCountsEachFileOnce | duplicated_img_detect_improved.py:270-317 | over the whole run, no path is counted twice and the counted paths are exactly the files that disappeared |
| Removal.SweepGroupsUntouched | duplicated_img_detect_improved.py:270-317 | with distinct paths across groups, a path outside the groups processed so far keeps its existence |
| Removal.FoundGroupsDistinctAcross | duplicated_img_detect_improved.py:215-223 | when the scanned records have distinct paths, the groups of the duplicate dictionary share no path, within a group or across groups; this is the hypothesis of the whole-run lemmas |
| Removal.SweepGroupsRemovesEveryRemovable | duplicated_img_detect_improved.py:270-317 | with distinct paths across groups, every member of a processed group other than its keeper that was removable at the start is counted as removed |
| Removal.SweepGroupsSparesMember | duplicated_img_detect_improved.py:270-317 | with distinct paths across groups, the file of a member of a skipped group, or of the kept member of a processed group, exists afterwards iff it existed at the start |
| Removal.SweepGroupsSparesKept | duplicated_img_detect_improved.py:270-317 | with distinct paths across groups, such a spared member is also never counted as removed |
| Removal.PlannedRemoval | duplicated_img_detect_improved.py:306-313 | one such member of a processed group is counted as removed and its file is gone |
| Removal.SweepGroupsAtMostDuplicateCount | duplicated_img_detect_improved.py:258-317 | with every kept index in range and no empty group, no more files are removed than the logged duplicate count |
| Removal.NothingPlannedNothingRemoved | duplicated_img_detect_improved.py:282-289 | when every group is skipped, nothing changes and nothing is counted |
| Removal.NoConfirmationNoRemoval | duplicated_img_detect_improved.py:282-289 | group by group, when no group is confirmed, the run removes nothing |
| Removal.RemoveAllAccounting | duplicated_img_detect_improved.py:258-319 | every member counted in the summary was removable and is gone, and is a member of a confirmed group other than the one kept there; no file is counted twice, the counted paths are exactly the files that disappeared, so `total_removed` is the number of files deleted; the count is at most the logged duplicate count |
| Removal.RemoveAllRemovesEveryRemovable | duplicated_img_detect_improved.py:282-317 | in a confirmed run with distinct paths, every member of a confirmed group other than the one kept that was removable at the start is counted as removed and its file is gone |
| Removal.RemoveAllSparesKept | duplicated_img_detect_improved.py:260-317 | with distinct paths, a member is not counted as removed and its file is unchanged when the run was cancelled, when its group's confirmation was not `yes`, or when it is the member kept in its group |
| Removal.DuplicateCountNonNegative | duplicated_img_detect_improved.py:258-258 | with no empty group, the logged duplicate count is not negative |

## Left out

- Subprocess calls (`check_exiftool_exists`, `get_camera_model_single` and the `subprocess.run` of `get_image_resolution_exiftool`): external processes. Their results are inputs (`exiftoolAvailable`, `ToolRun`), and a timeout or a missing tool is the `Raised` case.
- `calculate_image_hash` and `get_file_size`: file I/O and SHA-256. The hash is an opaque optional string and the size a natural number in the record.
- `process_single_image`: it only assembles a record from the extractors above and checks read permission. Records are inputs to the grouping.
- PIL's `Image.open`: a foreign library. Its outcome is the input `PilOutcome`.
- Directory discovery with `rglob` and the extension filter at line 192, the thread pool and `as_completed`: I/O and concurrency. The finished futures arrive as a sequence in an arbitrary order.
- `os.access` and `os.remove`: the filesystem is a set of existing paths with two fixed sets, the paths reported writable and the paths whose removal raises. Races with other processes are not modelled.
- `logging`, `print`, the `:.2f` rendering, `input()` mechanics, `parse_arguments` and the entry point: UI and CLI. Prompts are answer strings given in advance, one per group.
- Selection.SuggestBestFile: orders records by the exact score. Python's float arithmetic can round two nearly equal scores to the same float, or swap them; that is not modelled. Nor is the `OverflowError` that `resolution_score * 0.9` raises once w·h exceeds the largest float (about 1.8e308), reachable only from absurd ExifTool dimensions.
- SizeFormat.FormatFileSize: the value is exact division by powers of 1024. The float rounding of `/=` and of the two-decimal rendering are not modelled.
- Text.Lower: lower-cases ASCII letters only. This is exact for the comparisons with `.arw`, the raster extensions and `yes`. The only non-ASCII character whose lower case is ASCII is KELVIN SIGN (U+212A), which becomes `k`, and none of those words contains a `k`. (U+0130 becomes `i` followed by a combining dot, which is not ASCII.) It is not exact for `skip`: Python reads `s\u212aip` as `skip`. Both `skip` and any other non-`yes` answer skip the group, so the outcome is the same. Lower-casing of other non-ASCII characters is not modelled.
- Text.ParseInt: accepts ASCII digits only, with an optional sign, surrounding whitespace (every `str.isspace()` character except U+001C..U+001F, which make it fail) and single underscores between digits. Python's `int()` also accepts other Unicode decimal digits. CPython's `int()` and `str()` also refuse more than 4300 digits by default (`sys.set_int_max_str_digits`); the model has no such limit.
- Resolution.Suffix: follows `pathlib` for plain file names (the last dot, neither first nor last). Other `pathlib` corner cases and platform differences are not modelled.
