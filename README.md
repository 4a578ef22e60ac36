# diff_search core, modelled in Dafny

diff_search scans a directory tree. It writes a JSON manifest with one `{path, md5}` object per regular file. A path is relative to the scanned root when the file lies under it, and absolute otherwise. It can compare two manifests by MD5 digest. The comparison writes a "diff" document holding the digests found in only one manifest, and a "same" document pairing the files whose digests occur in both. A GTK viewer loads a diff document, drops duplicate records and shows the records in two panes that can be filtered by a search text.

This project models the logic at the centre of those three programs:

- `hash_index.dfy` (module `HashIndex`) models the digest index of `lib/json_diff/json_diff.c`.
  - The djb2 hash is reduced to 1024 buckets. `unsigned int` wrap-around is written out as arithmetic modulo 2^32, and `char` is taken to be signed.
  - An array of singly linked buckets is a class over `array<HashEntry?>`.
  - Insertion goes at the head of a bucket, with no deduplication.
  - Lookup scans a bucket from its head.
  - A ghost history of insertions (`Log`) and the function `Lookup` on it specify what `Find` returns: the path of the most recent insertion of the digest.
- `json_diff.dfy` (module `JsonDiff`) models the two reconciliation passes of `compare_json_files`.
  - Each pass builds the index with a loop and then walks the other manifest with a loop. The loops work over the parsed manifests, which are given as values.
  - The three outputs are specified by the functions `Matched`, `OnlyInFirst` and `OnlyInSecond` over the valid (md5, path) entries.
  - The lemmas state what those outputs mean: membership in both directions, order, disjointness, the totals, swapping the inputs, and self-comparison.
- `scanner.dfy` (module `Scanner`) models three parts of `main.c`.
  - `get_relative_path` is a function, with its round trip and its edge cases.
  - `process_file` is a method on a class for `process_context_t`. It appends to the manifest array and updates the counters.
  - The comparison-mode dispatch chooses the outputs from `--diff`, `--same` and `--both`, and chooses the exit status.
- `diff_ui.dfy` (module `DiffUi`) models the viewer's record handling in `diff-ui/diff-ui.c`.
  - `parse_diff_json` keeps only the first record for each `md5|file1_path|file2_path` key.
  - `update_file_trees` fills the two panes, with the search filter applied.
  - Opening a file clears the records and the key set before parsing.
- `manifest.dfy` (module `Manifest`) holds what the programs exchange through JSON: an object member as the cJSON accessors see it, and the (md5, path) pair of one scanned file.
- `ctypes.dfy` (module `CTypes`) holds the shared C-level types.
  - NUL-free byte strings are `seq` of bytes 1..255.
  - A NULL pointer is `None` of an `Option`.
  - The prefix test of `strncmp` and the substring test of `strstr` are predicates.

Behaviours of the code that the model makes explicit:

- The index keeps every insertion, and a lookup returns the NEWEST entry for a digest. With duplicate digests in a manifest, the last path wins.
- Every valid file-1 item gives its own record. Duplicate digests in file 1 are not suppressed, so the number of matches depends on which manifest is given first.
- The scanner never deduplicates (digest, path) pairs.
- `get_relative_path` tests for a byte prefix, not a path-segment prefix: under root `/a`, the path `/ab` becomes `b`.
- The viewer's deduplication key joins the three strings with '|', so it identifies a record only when neither the md5 nor the file1 path contains a '|'.

## Model

| member | source | states |
|---|---|---|
| CTypes.IsPrefix | main.c:28 | `strncmp(s, prefix, strlen(prefix)) == 0`: `prefix` is no longer than `s` and agrees with it byte by byte, so `s` is `prefix` followed by the rest |
| CTypes.Contains | diff-ui/diff-ui.c:185 | `strstr(hay, needle) != NULL`: a needle longer than `hay` is never found, a prefix always is, and of equal length only `hay` itself is |
| HashIndex.SignedChar | lib/json_diff/json_diff.c:12-13 | the `int` a byte is read as through a signed `char`: within -128..127, and equal to the byte modulo 256 |
| HashIndex.Djb2 | lib/json_diff/json_diff.c:11-15 | the `unsigned int` accumulator starts at 5381, and after each byte `h*33 + c` is reduced modulo 2^32; it always stays within 0..2^32-1 |
| HashIndex.Hash | lib/json_diff/json_diff.c:16 | the bucket of a key is within 0..1023 |
| HashIndex.HashFunction | lib/json_diff/json_diff.c:10-17 | the loop computes `Djb2(str) % 1024`, a bucket index within 0..1023 |
| HashIndex.HashEntry.constructor | lib/json_diff/json_diff.c:55-68 | a new node holds the key and path and links to the old head; its chain is the new pair followed by the old chain |
| HashIndex.HashMap.constructor | lib/json_diff/json_diff.c:19-31 | a new map has 1024 empty buckets and an empty history |
| HashIndex.Insert | lib/json_diff/json_diff.c:51-71 | returns -1 and changes nothing for a NULL map, digest or path; otherwise returns 0, records the insertion, places the new pair at the head of bucket `Hash(md5)` and leaves every other bucket as it was |
| HashIndex.FirstInBucketIsLatest | lib/json_diff/json_diff.c:67-87 | scanning a bucket from its head finds the newest insertion of the key |
| HashIndex.Find | lib/json_diff/json_diff.c:73-87 | NULL for a NULL map or digest, or for a digest never inserted; otherwise the entry with that digest whose path is the one inserted most recently |
| HashIndex.LookupIsLastInsertion | lib/json_diff/json_diff.c:67-84 | a lookup finds nothing exactly when no insertion used the key; otherwise it returns the path of an insertion of the key that no later insertion of the key follows |
| HashIndex.InsertThenLookup | lib/json_diff/json_diff.c:67-84 | after an insertion, its key finds the path just inserted, and lookups of other keys are unchanged |
| HashIndex.InsertKeepsDuplicates | lib/json_diff/json_diff.c:51-71 | inserting the same pair twice puts two copies at the head of its bucket |
| JsonDiff.ValidEntries | lib/json_diff/json_diff.c:180-188 | the walk keeps, in array order, the items passing the `IsValidItem` guard (string `path` and `md5`), so it yields at most one entry per item |
| JsonDiff.ValidEntriesCount | lib/json_diff/json_diff.c:180-188 | one entry for every item when all items are valid, none when none is |
| JsonDiff.IndexFiles | lib/json_diff/json_diff.c:179-188 | builds a fresh index whose history is exactly the valid entries of the array, in array order |
| JsonDiff.MatchFirst | lib/json_diff/json_diff.c:220-252 | pass 1 produces the same records `Matched(m1, m2)` and the only_in_file1 records `OnlyInFirst(m1, m2)`, and the totals equal the list lengths |
| JsonDiff.MatchSecond | lib/json_diff/json_diff.c:277-297 | pass 2 appends `OnlyInSecond(m1, m2)` to the diff records and counts each appended record |
| JsonDiff.CompareJsonFiles | lib/json_diff/json_diff.c:135-367 | returns -1 for a NULL parameter, a failed load, a `files` member that is not an array, or a failed write; otherwise returns 0 with same = `Matched`, diff = `OnlyInFirst` followed by `OnlyInSecond`, and totals equal to the lengths |
| JsonDiff.ValidEntriesAreStringItems | lib/json_diff/json_diff.c:182-186 | a pair takes part in the comparison exactly when an item has that pair as string `path` and `md5` members |
| JsonDiff.ValidEntriesAppend | lib/json_diff/json_diff.c:180-188 | the array is walked in order: the entries of a concatenation are the entries of each part, concatenated |
| JsonDiff.MatchedMembers | lib/json_diff/json_diff.c:232-240 | a same record exists exactly when a file-1 entry's digest is in file 2; the record pairs that entry's path with the newest file-2 path for the digest |
| JsonDiff.OnlyInFirstMembers | lib/json_diff/json_diff.c:241-249 | an only_in_file1 record, with an empty file2_path, exists exactly for a file-1 entry whose digest is absent from file 2 |
| JsonDiff.OnlyInSecondMembers | lib/json_diff/json_diff.c:285-295 | an only_in_file2 record, with an empty file1_path, exists exactly for a file-2 entry whose digest is absent from file 1 |
| JsonDiff.PassOneCoversFirst | lib/json_diff/json_diff.c:224-252 | every valid file-1 entry gives exactly one record in pass 1: same_count plus the pass-1 diff count is the number of valid file-1 entries |
| JsonDiff.MatchedKeepsOrder | lib/json_diff/json_diff.c:224-252 | same records follow the file-1 order |
| JsonDiff.OnlyInFirstKeepsOrder | lib/json_diff/json_diff.c:224-252 | only_in_file1 records follow the file-1 order |
| JsonDiff.OnlyInSecondKeepsOrder | lib/json_diff/json_diff.c:277-297 | only_in_file2 records follow the file-2 order |
| JsonDiff.MatchedDisjointFromDiff | lib/json_diff/json_diff.c:232-297 | no digest is both in the same output and in the diff output |
| JsonDiff.SwapExchangesOnlyIn | lib/json_diff/json_diff.c:224-297 | swapping the manifests turns the only_in_file1 digests into the only_in_file2 digests, in the same order |
| JsonDiff.FirstCoveredAllMatch | lib/json_diff/json_diff.c:224-252 | when every file-1 digest occurs in file 2, there is no only_in_file1 record and every file-1 entry is matched |
| JsonDiff.SecondCoveredNothingOnly | lib/json_diff/json_diff.c:277-297 | when every file-2 digest occurs in file 1, there is no only_in_file2 record |
| JsonDiff.SelfComparison | lib/json_diff/json_diff.c:224-297 | a manifest compared with itself has no differences, and every entry is matched |
| JsonDiff.AgainstEmpty | lib/json_diff/json_diff.c:224-297 | against an empty file 2, every file-1 entry becomes an only_in_file1 record, in order, and nothing is matched |
| JsonDiff.ExampleOneMatchOneOnlyInSecond | lib/json_diff/json_diff.c:224-297 | a concrete pair of manifests with one shared digest and one digest only in file 2 |
| JsonDiff.ExampleDuplicatesInFirstBothMatch | lib/json_diff/json_diff.c:224-240 | two file-1 entries with one digest each give a same record |
| JsonDiff.ExampleLastInSecondWins | lib/json_diff/json_diff.c:232-238 | of two file-2 entries with one digest, the one inserted later is paired |
| JsonDiff.ExampleMatchCountNotSymmetric | lib/json_diff/json_diff.c:224-240 | with duplicates, the match count depends on the order of the manifests (2 one way, 1 the other) |
| Scanner.GetRelativePath | main.c:21-46 | NULL exactly when an argument is NULL |
| Scanner.RelativePathRoundTrip | main.c:28-41 | a non-empty relative path joined to the base with one '/' is recovered unchanged; joined directly, it is recovered only when it does not start with '/'; otherwise that '/' is stripped, and a lone "/" becomes "." |
| Scanner.RootIsDot | main.c:36-39 | the base itself, with or without a trailing '/', becomes "." |
| Scanner.RelativePathRebuildsFull | main.c:28-41 | under the base, re-attaching the result (directly or after one '/') gives the full path back, except where "." stands for an empty rest |
| Scanner.OutsideBaseUnchanged | main.c:44-45 | a path that does not start with the base is returned whole |
| Scanner.PrefixNotSegmentAligned | main.c:28 | the prefix test is on bytes: under "/a", the path "/ab" becomes "b" |
| Scanner.OnlyOneSlashRemoved | main.c:32-34 | only one '/' is skipped: under "/a", the path "/a//b" becomes "/b" |
| Scanner.ProcessContext.constructor | main.c:240-245 | the context starts with an empty array, both counters at zero, and the given base directory |
| Scanner.ProcessContext.ProcessFile | main.c:48-83 | with a digest and a relative path, appends one {md5, path} entry and counts a file; otherwise counts an error and leaves the array alone; the file counter keeps matching the array length |
| Scanner.SelectAction | main.c:150-187 | scan mode exactly when no mode flag is set; a usage error exactly when a mode flag is set with other than two files; the diff output goes to diff.json exactly for --both or --diff and otherwise to /dev/null; likewise same.json for --both or --same |
| Scanner.CompareExitStatus | main.c:151-189 | comparison mode exits with 1 exactly for a usage error or a failed comparison, and with 0 otherwise |
| Scanner.OutputSelection | main.c:165-187 | --both, or --diff with --same, writes both outputs; --diff alone writes only the diff output; --same alone writes only the same output |
| DiffUi.AsEntry | diff-ui/diff-ui.c:133-145 | a record is used exactly when its md5, file1_path, file2_path and status members are all strings |
| DiffUi.UniqueKey | diff-ui/diff-ui.c:148 | the key is the three strings and two '\|' separators, of their total length plus 2 |
| DiffUi.UniqueKeyLayout | diff-ui/diff-ui.c:148 | `%s\|%s\|%s`: the md5, a '\|', the file1 path, a '\|', the file2 path |
| DiffUi.UniqueKeyIdentifiesRecord | diff-ui/diff-ui.c:148-151 | when neither md5 nor file1 path contains a '\|', two records have the same key exactly when their md5, file1 path and file2 path agree |
| DiffUi.Shows | diff-ui/diff-ui.c:182-198 | an entry is listed in a pane only when its path for that pane is non-empty; under a NULL or empty search exactly then; under a non-empty search exactly when the path also contains the search |
| DiffUi.AppData.constructor | diff-ui/diff-ui.c:340-352 | a new viewer state has no entries, no keys and empty panes, and its keys are tracked |
| DiffUi.AppData.ParseDiffJson | diff-ui/diff-ui.c:115-167 | FALSE, with nothing changed, when there is no `files` array; otherwise TRUE, with every valid record whose key is new appended, every valid key added to the set, and key tracking preserved |
| DiffUi.AppData.UpdateFileTrees | diff-ui/diff-ui.c:171-217 | both panes are rebuilt as the rows of the entries each one shows, in entry order |
| DiffUi.AppData.OpenFile | diff-ui/diff-ui.c:250-262 | entries and keys are cleared before parsing, so on success they are exactly the new document's and both panes show them unfiltered; on failure the panes keep the previous document's rows |
| DiffUi.DedupKeysDistinct | diff-ui/diff-ui.c:147-159 | appended entries have pairwise distinct keys, and none of them was already seen |
| DiffUi.DedupKeysInItems | diff-ui/diff-ui.c:147-159 | every appended entry's key is the key of a valid record of the document |
| DiffUi.DedupKeepsFirstOccurrence | diff-ui/diff-ui.c:130-164 | an entry is appended exactly when it comes from the first valid record with its key and that key was not seen before |
| DiffUi.DedupKeepsOrder | diff-ui/diff-ui.c:130-164 | entries are appended in array order: reading `items` then `more` is reading `items`, then `more` with the keys of `items` already seen |
| DiffUi.ExampleStatusNotInKey | diff-ui/diff-ui.c:148-151 | two records that differ only in status keep only the first |
| DiffUi.ExamplePipeInPathCollides | diff-ui/diff-ui.c:148-151 | distinct records ("d", "a\|b", "c") and ("d", "a", "b\|c") share a key, so the second is dropped |
| DiffUi.PaneMembers | diff-ui/diff-ui.c:178-215 | a pane lists exactly the rows of the entries it shows |
| DiffUi.PaneKeepsOrder | diff-ui/diff-ui.c:178-215 | the panes keep the order of the entries |
| DiffUi.EmptySearchShowsAll | diff-ui/diff-ui.c:182-198 | a NULL search and an empty search show the same rows: each entry whose path for that pane is non-empty |

## Left out

- MD5 computation (RFC 1321, `calculate_file_md5`): it is a parameter of `ProcessFile`, with `None` for a failure.
- Directory traversal (`traverse_directory`, and `realpath` through `get_absolute_path`) is not modelled. `ProcessFile` models a single callback.
- The C `int` counters are unbounded `int` in the model, and their overflow is not modelled. These are `same_count` and `diff_count` in `compare_json_files` (lib/json_diff/json_diff.c:220-221), and `file_count` and `error_count` in `process_context_t` (main.c:15-16).
- JSON text is not modelled: loading, parsing, printing and writing it (`load_json_file`, `cJSON_Parse`, `cJSON_Print`, `fopen`/`fprintf`). Parsed documents are given as values, and the success of writing both outputs is the `outputWritten` parameter.
- The `comparison_info` metadata is not modelled. That covers the `ctime` timestamp, the paths, the descriptions, and how the totals are placed in the document. The totals themselves are modelled.
- Console and log output is not modelled (`printf`, `g_warning`, `g_print`).
- `cJSON_GetObjectItem` matches member names case-insensitively, so `"MD5"`, `"Path"` or `"FILES"` are accepted as well. The `Field` and `FilesMember` views given to the model stand for the result of that lookup and do not model the matching itself.
- HashIndex.Insert: does not model the -1 returned when `malloc` or `strdup` fails, because allocation failure is not modelled anywhere.
- JsonDiff.CompareJsonFiles: does not model the -1 returned when `create_hash_map` fails, because allocation failure is not modelled anywhere. It also ignores the return value of `hash_map_insert`, as the source does. When the diff output has been written but the same output cannot be opened, the source returns -1 with diff.json already on disk; the model folds both writes into `outputWritten` and does not record that partial write.
- `free_hash_map`, `free_diff_entry` and other memory release are not modelled. Dafny has no explicit deallocation.
- `create_hash_map` is modelled only for the size 1024 that both callers pass. `hash_function` always reduces modulo 1024, so any other size would not match the bucket indexing.
- Signedness of `char`: the model takes `char` to be signed, as on x86. On a platform with unsigned `char`, bytes 128-255 would hash differently. Bucket placement would change, but not what `Find` returns.
- GTK is not modelled: widgets, the file chooser, the search callback and the list stores as widgets. Each store is a sequence of (filename, md5, status) rows.
- DiffUi.AppData.UpdateFileTrees: states the row order in which the stores are filled. The filename column is sortable, and once the user sorts it the list store presents rows in filename order instead; that view-side reordering is not modelled.
- `getopt_long` parsing and the scan-mode half of `main` are not modelled. `SelectAction` starts from the three parsed flags and the count of positional arguments.
