# repomapper, modelled in Dafny

repomapper walks a project directory and writes one Markdown document:
- a French introduction naming the project;
- an ASCII tree of the directories, with box-drawing connectors;
- one fenced section per eligible text file, its code fence longer than any run of backticks inside the file;
- a statistics footer.

The output can stop early at a character limit. The document can be re-emitted with chosen line endings and copied to the clipboard when it fits under a size cap.

This project models that pipeline over an in-memory filesystem and proves what each stage promises. The filesystem is `FileSystem.Node`: directories with a "listing refused" flag, and files with link, regularity, stat-error and open-error flags and their bytes.

- `Ignore`: the built-in directory denylist, the null-safe matcher wrapper and the optional gitignore loader.
- `PathNames`, `Utils`: Python's `Path.suffix`, the binary-extension table, the binary-content probe and the language labels.
- `Eol`: the four-way line-break split and re-join, used both for a section's canonical text and for the output modes, plus the clipboard cap.
- `TreeOrder`, `Tree`, `TreeFacts`: the stable sort of a directory's entries, the two filter passes, and `build_tree`/`_walk`. `_walk` is a class, `TreeBuilder`, whose methods append to `lines` and bump `nbDirs`/`nbFiles`, each proved against the recursive specification `WalkLines`.
- `Collect`, `CollectFacts`: `iter_files` as a top-down walk. Pruning and file-check loops are proved against `KeptDirs`/`FilesFound`/`Collected`. Soundness, completeness and pruning facts are proved about `Collected`.
- `Fence`: `_pick_fence_for` as a loop proved against `FenceFor`, and the proof that no run of backticks in a section body can close the fence.
- `Reader`: `read_text_safely`, with the codecs as oracles and universal-newline translation written out.
- `Dump`, `DumpFacts`: `dump_repository`, whose file loop is proved against the function `Emit`, and the facts about the document: the header, truncation, counts and the recorded length.
- `Coverage`: when links are not followed, every exported file is an entry line of the exported tree.

A character limit below the natural output length does not always leave out a file. The file whose section crosses the limit is still written and counted, so when it is the last readable file nothing is left out. A header that alone exceeds the limit never triggers the notice, because the limit is checked only after a section (`DumpFacts.EmitStops`, `DumpFacts.DocumentContents`).

## Model

| member | source | states |
|---|---|---|
| Ignore.CommonIgnoredDirsSize | src/repomapper/ignore.py:8-28 | the denylist has exactly 19 distinct names, among them `.git`, `node_modules`, `__pycache__`, `dist` and `build` |
| Common.NatToString | src/repomapper/dump.py:127-128 | `%s` of a count: a non-empty string of decimal digits |
| Common.NatToStringValue | src/repomapper/dump.py:127-128 | the digits denote the count they were made from, with no leading zero |
| Common.IntToString | src/repomapper/dump.py:120-121 | `%s` of the limit: a leading minus sign exactly for a negative limit |
| Common.IntToStringValue | src/repomapper/dump.py:120-121 | after the optional minus sign, the digits denote the magnitude of the limit |
| PathNames.RFind | src/repomapper/utils.py:89 | the index of the last occurrence of a character, or -1 iff it does not occur |
| PathNames.Suffix | src/repomapper/utils.py:89 | a non-empty suffix starts with a dot, is a proper tail of the name with no further dot, and the name has a character before it |
| PathNames.SuffixLower | src/repomapper/utils.py:89 | the suffix of the lower-cased name is the lower-cased suffix |
| PathNames.SuffixOfStemExt | src/repomapper/utils.py:89 | a non-empty stem followed by a dotted, dot-free extension has that extension as its suffix |
| Utils.LangKeysShape | src/repomapper/utils.py:43-85 | every key of the label table is a dotted suffix, except `Dockerfile` and `Makefile` |
| Utils.BinaryPathCaseInsensitive | src/repomapper/utils.py:88-89 | lower-casing the whole name does not change the binary-extension verdict |
| Utils.BinaryPathBySuffix | src/repomapper/utils.py:88-89 | a name ending in a listed binary extension, in any letter case, after a non-empty stem, is binary |
| Utils.IsBinaryPath | src/repomapper/utils.py:88-89 | the definition of `is_binary_path`: the lower-cased suffix is a listed binary extension |
| Utils.IsProbablyBinary | src/repomapper/utils.py:92-97 | the definition of `is_probably_binary`: a NUL byte, or non-text bytes above 30% of `max(1, length)` |
| Utils.NulIsBinary | src/repomapper/utils.py:93-94 | illustration: a chunk holding a NUL byte is binary |
| Utils.EmptyIsNotBinary | src/repomapper/utils.py:95-97 | illustration: the empty chunk is not binary (the ratio divides by at least 1) |
| Utils.AllTextIsNotBinary | src/repomapper/utils.py:95-97 | a chunk made only of text bytes is not binary |
| Utils.ThresholdExact | src/repomapper/utils.py:95-97 | without a NUL byte, at any length, a chunk of text bytes and non-text bytes is binary iff the non-text bytes are strictly more than 30% of `max(1, length)` |
| Utils.DetectLang | src/repomapper/utils.py:100-103 | the definition of `detect_lang`: the exact name, else the lower-cased suffix, else no label; `DetectLangBySuffix` and the lemmas below state its results |
| Utils.DetectLangBySuffix | src/repomapper/utils.py:100-103 | a name made of a non-empty stem, a dot and a dot-free extension, and not itself a table key, gets the label of its lower-cased extension, or none when that extension is not in the table |
| Utils.LowerSuffixOf | src/repomapper/utils.py:89 | the lower-cased suffix of a stem, a dot and a dot-free extension is the dot and the lower-cased extension |
| Utils.NoDotNoLabel | src/repomapper/utils.py:100-103 | a dot-free name other than the two special names gets no label |
| Utils.WellKnownNames | src/repomapper/utils.py:82-84 | `Dockerfile` and `Makefile` get their labels, while `makefile` and `DOCKERFILE` get none |
| Utils.EnvFilesHaveNoLabel | src/repomapper/utils.py:100-103 | a file whose suffix is `.env` in any letter case gets no label, whatever its non-empty stem, hidden stems such as `.local` included |
| Utils.EnvNameHasNoLabel | src/repomapper/utils.py:55 | the file named `.env` gets the empty label |
| Eol.BreakLen | src/repomapper/cli.py:86 | the leftmost match is two characters exactly for `\r\n` or `\n\r`, one for any other break character, none otherwise |
| Eol.SplitLines | src/repomapper/cli.py:86 | the split gives at least one piece and no piece holds a break character |
| Eol.EolFor | src/repomapper/cli.py:87-92 | `lf` joins with `\n` and `crlf` with `\r\n`; the platform mode picks one of the two |
| Eol.NormalizeEol | src/repomapper/cli.py:80-93 | the definition of `_normalize_eol`: split on the four-way pattern, join with the mode's separator; the lemmas below state its properties |
| Eol.LineCount | src/repomapper/cli.py:86 | there is one more piece than there are break matches |
| Eol.OneBreakTwoLines | src/repomapper/cli.py:86 | each of `\r\n`, `\n\r`, `\r`, `\n` between two break-free lines separates exactly those two lines |
| Eol.DoubleBreakKeepsBlankLine | src/repomapper/cli.py:81-86 | two equal one-character breaks keep the blank line between them |
| Eol.RejoinKeepsContent | src/repomapper/cli.py:86-93 | re-joining keeps every character that is not a line break, in order |
| Eol.SplitJoin | src/repomapper/cli.py:86-93 | splitting a join of break-free lines with either output separator gives the lines back |
| Eol.NormalizeIdempotent | src/repomapper/cli.py:80-93 | normalising twice in the same mode gives the same text as normalising once |
| Eol.CrlfModeBreaks | src/repomapper/cli.py:89-93 | after joining with `\r\n`, every break is exactly `\r\n` |
| Eol.NormalizeModes | src/repomapper/cli.py:87-93 | `lf` output holds no `\r`; every break of `crlf` output is `\r\n` |
| Eol.Canonical | src/repomapper/dump.py:109 | the definition of the section's canonical text: split on the four-way pattern, join with `\n` |
| Eol.CanonicalHasNoCr | src/repomapper/dump.py:109 | the canonical text of a section holds no carriage return |
| Eol.CanonicalKeepsLfText | src/repomapper/dump.py:109 | text without a carriage return is its own canonical text |
| Eol.ClipboardCopy | src/repomapper/cli.py:124-134 | something is copied iff a copy is asked for, the clipboard is available and the CRLF text fits the cap; what is copied fits the cap, has only `\r\n` breaks and otherwise the document's characters in order |
| Fence.TrailingRun | src/repomapper/dump.py:20-26 | the counter after a prefix is the length of the backtick run ending it; the run is maximal |
| Fence.FenceFor | src/repomapper/dump.py:27-28 | the fence is made of backticks only and is at least three long |
| Fence.PickFenceFor | src/repomapper/dump.py:17-28 | the loop returns `max(3, longest run + 1)` backticks |
| Fence.RunBounded | src/repomapper/dump.py:18-26 | every run of backticks in the text is at most the longest run the loop keeps |
| Fence.LongestRunAchieved | src/repomapper/dump.py:18-26 | some run of backticks has exactly the longest length |
| Fence.FenceIsSafe | src/repomapper/dump.py:17-28 | the fence is strictly longer than every backtick run of the text, and is 3 or the longest run plus one |
| Fence.CanonicalRuns | src/repomapper/dump.py:107-109 | canonicalising line breaks creates no longer run of backticks |
| Fence.RStripNewlines | src/repomapper/dump.py:113 | the result is a prefix without a trailing `\n`, and only line feeds were removed |
| Fence.BodyCannotCloseFence | src/repomapper/dump.py:107-114 | the written body holds no run of backticks as long as its fence |
| Reader.Head | src/repomapper/dump.py:38 | the probe reads a prefix of the file: all of it for a negative count, else the first `n` bytes or fewer |
| Reader.Universal | src/repomapper/dump.py:47 | text read with universal newlines holds no carriage return |
| Reader.FirstDecoded | src/repomapper/dump.py:44-51 | the result is some encoding's strict decoding; it is absent only when every strict decoding fails |
| Reader.ReadTextSafely | src/repomapper/dump.py:31-59 | the probe-then-try-each-encoding loop returns exactly `ReadSpec` |
| Reader.ReadOutcome | src/repomapper/dump.py:36-59 | absent iff the open fails or the head looks binary; else the first strict decoding that succeeds; the replacing decoder is used only when all of them fail |
| Reader.NulInHeadIsUnreadable | src/repomapper/dump.py:37-40 | illustration: a NUL byte in the probed head makes the file unreadable |
| Reader.EmptyFileReadsEmpty | src/repomapper/dump.py:44-49 | illustration: an empty file reads as the empty text when the first encoding decodes it so |
| Reader.Latin1MakesLossyUnreachable | src/repomapper/dump.py:33-57 | when Latin-1 decodes everything, the default chain never reaches the replacing decoder |
| Reader.UniversalKeepsLfText | src/repomapper/dump.py:47 | text without a carriage return is unchanged by the newline translation |
| Reader.ReadTextIsCanonical | src/repomapper/dump.py:109 | text as read has no `\r`, so the section's re-split changes nothing |
| Reader.LfCrIsTwoBreaksWhenRead | src/repomapper/dump.py:14 | illustration: `\n\r` is one break for the section's split but two for universal newlines |
| TreeOrder.SortEntriesPermutes | src/repomapper/tree.py:16-18 | sorting permutes the entries |
| TreeOrder.SortEntriesMembers | src/repomapper/tree.py:16-18 | sorting keeps exactly the same entries |
| TreeOrder.SortEntriesSorted | src/repomapper/tree.py:16-18 | the result is ordered by `(is_file, lower-cased name)` |
| TreeOrder.SortEntriesStable | src/repomapper/tree.py:16-18 | entries with equal keys keep their listing order |
| TreeOrder.SortEntriesCorrect | src/repomapper/tree.py:16-18 | a stable permutation ordered by the key, with every non-file before every file |
| TreeOrder.SortEntries | src/repomapper/tree.py:16-18 | the definition of the tree's `sorted` call, as an insertion sort; the lemmas above state what it returns |
| Tree.Visible | src/repomapper/tree.py:23-28 | an entry survives the first pass iff it is not a link and not a dropped hidden name |
| Tree.Kept | src/repomapper/tree.py:30-41 | an entry survives the second pass iff it is not excluded: a directory by ignored name or a match on `rel + "/"`, anything else by a match on `rel` |
| Tree.FilterEntries | src/repomapper/tree.py:30-41 | the filter loop keeps exactly `Kept`, in order |
| Tree.Listing | src/repomapper/tree.py:16-41 | every listed entry is a child of the directory |
| Tree.TreeLines | src/repomapper/tree.py:54-55 | the first line is the root's line (`TreeFacts.OnlyFirstLineIsRoot` adds that it is the only one) |
| Tree.EntryShape | src/repomapper/tree.py:43-52 | a directory entry gives `prefix + connector + name + "/"` and its subtree, counts one directory and its subtree's; a file gives `prefix + connector + name` and counts one file |
| Tree.TreeBuilder.constructor | src/repomapper/tree.py:9-11 | the shared lines start with the root's line and both counters at zero |
| Tree.TreeBuilder.Walk | src/repomapper/tree.py:13-52 | appends `WalkLines` and adds its directory and file lines to the counters |
| Tree.TreeBuilder.WalkChildren | src/repomapper/tree.py:43-52 | the entry loop appends the lines of the listed entries in order and counts them |
| Tree.TreeBuilder.WalkEntry | src/repomapper/tree.py:44-52 | one entry: its line with the connector of its position, its counter, and its subtree |
| Tree.BuildTree | src/repomapper/tree.py:6-56 | the text is the lines joined with `\n`; the counters are the numbers of directory and file lines |
| TreeFacts.ListingMembers | src/repomapper/tree.py:23-41 | an entry is listed iff it is a child that is not a link, not a dropped hidden name and not excluded at its path |
| TreeFacts.ListingSorted | src/repomapper/tree.py:16-41 | the listing is in sort order |
| TreeFacts.WalkLinesPlaced | src/repomapper/tree.py:43-52 | every line of a directory is indented at least by its prefix and shows an entry that passes the filters |
| TreeFacts.TreeShowsOnlyShown | src/repomapper/tree.py:23-41 | no entry line of the tree shows a link, a dropped hidden entry or an excluded entry |
| TreeFacts.OnlyFirstLineIsRoot | src/repomapper/tree.py:54-55 | the root's line is the first line of the tree and no other line is a root line |
| TreeFacts.DrawnLines | src/repomapper/tree.py:43-45 | the drawn lines are the entries in order, each at its own position |
| TreeFacts.WalkLinesDirect | src/repomapper/tree.py:19-52 | the lines directly under a readable directory are its listed entries in order, with positional connectors; a refused listing is one denial line |
| Collect.DirNames | src/repomapper/collect.py:16-18 | the walk's directory names are exactly the children that are directories |
| Collect.FileNames | src/repomapper/collect.py:16-18 | the walk's file names are exactly the other children |
| Collect.KeptDirs | src/repomapper/collect.py:21-31 | a subdirectory stays iff its name is not ignored, it is not a dropped hidden name and the matcher does not match `rel + "/"` |
| Collect.FilesFound | src/repomapper/collect.py:33-49 | every yielded file is one of the directory's files, at its own path, passing every file check |
| Collect.PruneDirs | src/repomapper/collect.py:21-31 | the pruning loop keeps exactly `KeptDirs` |
| Collect.AdmitFiles | src/repomapper/collect.py:33-51 | the file loop yields exactly `FilesFound` |
| Collect.Walk | src/repomapper/collect.py:16-51 | the walk yields exactly `Collected`: own files first, then each kept, entered subdirectory |
| Collect.IterFiles | src/repomapper/collect.py:8-51 | `iter_files` yields `Collected` of the root |
| CollectFacts.CollectedAdmitted | src/repomapper/collect.py:33-49 | every yielded file passes every file check at its own path |
| CollectFacts.CollectedComplete | src/repomapper/collect.py:16-49 | a readable directory yields each of its admitted files and everything its kept, entered subdirectories yield |
| CollectFacts.PrunedContentsIrrelevant | src/repomapper/collect.py:21-31 | what a directory yields does not depend on the contents of its pruned subdirectories |
| Coverage.CollectedInWalk | src/repomapper/collect.py:21-49 | with links not followed, every yielded file has an entry line for itself, at its path, among the tree lines of its directory |
| Coverage.ExportedFilesAreInTree | src/repomapper/dump.py:74-100 | with links not followed, every exported file is an entry line of the exported tree |
| Dump.SectionOf | src/repomapper/dump.py:102-114 | a file gets a section iff it reads as text |
| Dump.Intro | src/repomapper/dump.py:62-67 | the definition of `_intro_prompt`: the French introduction naming the project |
| Dump.Header | src/repomapper/dump.py:80-88 | the definition of what is written before the first section: introduction, tree block, files heading |
| Dump.Opening | src/repomapper/dump.py:112 | the definition of a section's opening fence line, with the label only when there is one |
| Dump.Section | src/repomapper/dump.py:111-114 | the definition of a section: heading, opening fence, canonical body without trailing line feeds, closing fence |
| Dump.Notice | src/repomapper/dump.py:119-122 | the definition of the truncation notice, with the limit written by `IntToString` |
| Dump.Footer | src/repomapper/dump.py:125-129 | the definition of the statistics footer, with both numbers written by `NatToString` |
| Dump.Sections | src/repomapper/dump.py:93-114 | one slot per collected file, in collection order |
| Dump.FileSection | src/repomapper/dump.py:101-114 | one turn of the file loop produces exactly `SectionOf` |
| Dump.EmitFiles | src/repomapper/dump.py:90-123 | the file loop with its early stop computes exactly `Emit` from the header |
| Dump.DumpRepository | src/repomapper/dump.py:70-130 | the whole run produces exactly `Document` |
| DumpFacts.EmitKeepsPrefix | src/repomapper/dump.py:93-123 | the loop only appends to the output |
| DumpFacts.EmitTotal | src/repomapper/dump.py:117-122 | the recorded length is the output's, or the output's before the one trailing notice when the loop stopped |
| DumpFacts.EmitCounts | src/repomapper/dump.py:116-123 | the loop stops only past a non-zero limit after writing a section; run to the end, its count is the number of readable files; it never counts more |
| DumpFacts.EmitRunsOut | src/repomapper/dump.py:93-117 | run to the end, the loop appends every present section in collection order, counts them, and records the length after the last one |
| DumpFacts.EmitStops | src/repomapper/dump.py:111-123 | stopped, the loop wrote the present sections up to and including `ss[k]`, the first one after which the output exceeds a non-zero limit (after every earlier one it was within it), then the notice; count and recorded length are those of the same sections |
| DumpFacts.StopsAtUnique | src/repomapper/dump.py:116-123 | the first section that pushes the output past the limit is unique |
| DumpFacts.EmitWithinLimit | src/repomapper/dump.py:117-118 | a run that ended normally under a non-zero limit recorded a length within it; with no section written the recorded length is unchanged |
| DumpFacts.EmitNegativeLimit | src/repomapper/dump.py:118 | a negative limit stops the loop right after the first section |
| DumpFacts.SectionsPresent | src/repomapper/dump.py:102-104 | illustration: a section is present exactly for the files that read as text |
| DumpFacts.EmitFromHeader | src/repomapper/dump.py:88-123 | started from the header: the header stays first, the counts and recorded length are as above, and a zero limit never truncates |
| DumpFacts.EmitWithFooter | src/repomapper/dump.py:90-129 | from the header, the loop's output and footer are every present section in order and their footer, or the sections up to the first one that crossed the limit (every earlier prefix within it), the notice and their footer |
| DumpFacts.DocumentStartsWithHeader | src/repomapper/dump.py:80-88 | the document opens with the introduction and the tree block |
| DumpFacts.DocumentShape | src/repomapper/dump.py:125-129 | the document is the loop's output and then the footer with its count and recorded length; the truncation facts carry over |
| DumpFacts.DocumentContents | src/repomapper/dump.py:70-130 | the document is the header, the readable files' sections in collection order (all of them without a limit, else up to and including the first one after which the output exceeded the limit, then the notice), and the footer counting them |
| DumpFacts.SectionOfReadText | src/repomapper/dump.py:107-114 | for text as read, canonicalising changes nothing and the body cannot close its fence |

## Left out

- Argument parsing, writing the document to a file or to standard output, and the `pyperclip` call are I/O. The clipboard is modelled only as the decision of what would be copied (`Eol.ClipboardCopy`), with its availability as a parameter.
- The real filesystem is a `Node` datatype.
  - The raw listing order of a directory is the order of `children`, kept as given by the walk and sorted only by the tree.
  - A refused listing (`denied`), a failed `stat` (`statFails`) and a failed open (`readFails`) are flags on nodes.
  - Symbolic-link cycles cannot be written in the datatype, so a walk that follows links always ends.
- The model yields each file's root-relative path and node, not an absolute path. `cfg.root.resolve().name` is the parameter `rootName`.
- Errors raised by `is_symlink()` and `is_file()` are not modelled separately. They are covered by the same skip as a failed `stat`.
- A `.gitignore` that exists but cannot be read (a directory of that name, or no read permission) is not modelled: `gitignoreText` is either absent or the file's text. In the program `read_text` then raises an `OSError` that nothing catches, and `dump_repository` fails.
- Gitignore wildcard semantics are a foreign library. A compiled pattern set is an uninterpreted predicate on root-relative paths. Reading the `.gitignore` text and splitting it into lines is folded into `compile`.
- UTF-8, UTF-16 and Latin-1 decoding, and `errors="replace"`, are oracles (`Reader.Codecs`). The universal-newline translation is written out (`Reader.Universal`), applied to the decoded text.
- Python's `str.lower` is modelled on ASCII letters only.
- Utils.IsProbablyBinary: the float ratio `nontext / max(1, len) > 0.30` is the integer test `10 * nontext > 3 * max(1, len)`. Both agree on the probe sizes used, but the model does not reproduce binary floating-point rounding.
- The `platform` line-ending mode depends on `sys.platform`. It is the parameter `onWindows`.
- Encoding the output to UTF-8 bytes is left out. Lengths are counted in characters, as `out.tell()` on a text buffer does.
- `src/repomapper/config.py` holds no logic. Its fields are the fields of `Dump.Config`.
- A root that is not a directory is outside the model: `Dump.DumpRepository`, `Dump.Document`, `Dump.Body`, `Dump.TreeText` and `Dump.Files` require `cfg.root.Dir?`. In the program `iterdir()` then raises `NotADirectoryError`, which `_walk` does not catch, and `dump_repository` fails.
- Only a listing refused with a permission error is modelled (`denied`). Another `OSError` while listing is skipped silently by `os.walk` in `iter_files`, but escapes `_walk` and aborts `build_tree`; the `Node` datatype cannot express that case.
- `readFails` is one flag for all five opens of `read_text_safely`: either every open fails or none does. A file for which only some opens fail is not modelled. One example is a binary probe that opens, a strict UTF-8 open that fails, and a UTF-16 open that then succeeds.
- `PathNames.Suffix` follows the `Path.suffix` rule of Python before 3.14: the suffix starts at the last dot when that dot is neither the first nor the last character.
- The tree block uses the fixed three-backtick fence, so a file or directory name containing three backticks closes it early. The model states no property of the tree block's fence; only the file sections' fences are proved safe (`Fence.BodyCannotCloseFence`).
