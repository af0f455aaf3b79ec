# Thunderbird mail synchronizer, modelled in Dafny

`tb_mbx_sync.py` merges two Thunderbird profiles. It walks both profile
trees and keeps the mailbox files (names with no `.`) and the
`popstate.dat` files. It pairs each file of profile 1 with the file of
profile 2 that has the same path below the profile root. Then it merges
each pair:

- **Mailbox pairs.** The script cuts each mailbox into messages at the
  `From - ` separator lines. It fingerprints each message with MD5 over the
  whitelisted header fields (Subject, From, To, Cc) and the body. Each
  mailbox is then appended the messages of the other whose fingerprint it
  lacks. A mailbox that gained messages loses its `.msf` summary file, so
  that Thunderbird rebuilds it.
- **`popstate.dat` pairs.** After a six-line header, each line names a
  message by its second space-separated field. Each file is appended the
  lines of the other whose message id it lacks.

The per-pair tables live in a fresh SQLite database. They are modelled as
sequences of rows in insertion order.

Modules, one per part of the script:

- `Text`: Python 2 byte-string helpers (`lower`, `rstrip`, `split`,
  `replace`, `os.path.join`, `basename`) and reading a file line by line.
- `Table`: the SQL tables and `SELECT … WHERE key NOT IN (SELECT key …)`.
- `Paths`: `sieve`, `match_filename` and `compare_paths`.
- `Framer`: `store_hashes`. A pure step function `Step`/`Run`/`Frame`
  specifies the imperative `StoreHashes`.
- `Extract`: `msg`.
- `Merge`: the file store, modelled as a class holding a map from path to
  content, and `comparemsgs`.
- `Popstate`: `insert_popstates` and `compare_popstates`.
- `Sync`: the top level. It matches the trees, then runs the loop over the
  matched pairs with its `try`/`except IndexError`.

Every imperative method is proved equal to a specification function, and
the lemmas state what the source promises about that function. Three results
matter most:

- the table has one record at offset 0, covering everything before the
  first separator line that follows line 0 outside a header, and then one
  record at the byte offset of each such separator line. An empty mailbox,
  or one that does not start with a separator, still gets the record at
  offset 0 (`Framer.FrameVals`);
- the same message gets the same fingerprint in both mailboxes
  (`Framer.SameMessageSameHash`);
- a run, whatever its outcome, only appends to the modelled files and
  deletes none of them but `.msf` summary files (`Sync.ScriptGrows`). The
  scratch database `map.db`, which the program also deletes, is not
  modelled.

The model follows the code wherever the code and its own comments or
description differ:

- An empty mailbox still yields one record at offset 0. The `for … else`
  branch runs even when the loop body never did (`Framer.EmptyMailbox`).
- A popstate file's first six lines are skipped (`i > 5`).
- An entry line without a space raises `IndexError`. The outer `try`
  catches it, so the run ends with the usage text and exit status 2.
- `str.replace(root, '')` removes every occurrence of the root, not only
  the leading one. So two files of profile 1 can get the same key. The
  second lookup then finds a file that `uniques.remove` already removed, and
  the uncaught `ValueError` crashes the run (`Paths.ExampleSharedKey`).
- `if filename2:` treats an empty path as no match.

## Model

| member | source | states |
|---|---|---|
| Text.LowerStr | tb_mbx_sync.py:159 | `lower()` on a byte string keeps the length and lowers each byte on its own, ASCII letters only |
| Text.PrefixIsLower | tb_mbx_sync.py:159 | the byte-by-byte separator test is `s[:len(p)].lower() == p`, which is false when the line is shorter than the pattern |
| Text.RStrip | tb_mbx_sync.py:187 | `rstrip()` yields a prefix of the line that does not end in whitespace, and every byte it drops is whitespace |
| Text.IndexOf | tb_mbx_sync.py:110 | `find` returns the first position of the byte, or reports its absence, and no earlier position holds the byte |
| Text.SecondFieldSpec | tb_mbx_sync.py:76 | `line.split(' ')[1]` fails exactly when the line has no space; otherwise it is the space-free text after the first space, up to the next space or the end of the line |
| Text.PathJoinEnds | tb_mbx_sync.py:111 | `os.path.join(root, f)` ends with the file name, after a `/` unless the path is the name alone |
| Text.Basename | tb_mbx_sync.py:290 | `os.path.basename` is the suffix of the path after its last `/`, or the whole path when it has none |
| Text.RemoveAll | tb_mbx_sync.py:126 | `replace(root, '')` never lengthens a path, and a result as long as the path is the path itself |
| Text.RemoveAllAbsent | tb_mbx_sync.py:126 | `replace(root, '')` leaves a path unchanged when the root does not occur in it |
| Text.RemoveAllOfPrefix | tb_mbx_sync.py:126 | on a path built under the root, `replace` removes just the leading root when the root does not occur again in the rest |
| Text.LineEndAtNewline | tb_mbx_sync.py:157 | a line read holds no newline except as its last byte, and only the last line of a file may lack one |
| Text.ReadLine | tb_mbx_sync.py:157-158 | `readline` after a `seek` returns the empty string exactly at or past the end of the file |
| Text.LinesConcat | tb_mbx_sync.py:186 | the lines `fileinput` yields join back to the file, and none of them is empty |
| Text.LinesFromAt | tb_mbx_sync.py:153-157 | seeking to the byte offset of line j and reading on yields lines j and on |
| Text.LinesAt | tb_mbx_sync.py:153-157 | the offset of line j of a file, as the sum of the earlier lines' lengths, lies within the file and starts lines j and on |
| Text.SumLenIsLength | tb_mbx_sync.py:221 | the sum of the lengths of the lines is the byte length of their concatenation |
| Text.ConcatAppend | tb_mbx_sync.py:164 | `''.join` of two lists is the join of the first followed by the join of the second |
| Table.Missing | tb_mbx_sync.py:246-247 | no selected row has a key that occurs in the second table |
| Table.MissingMembers | tb_mbx_sync.py:246-247 | a row is selected by `NOT IN` exactly when it is in the first table and its key is nowhere in the second |
| Table.MissingCount | tb_mbx_sync.py:246-247 | the selection keeps every copy of a selected row: duplicates of the first table are not merged |
| Table.MissingLength | tb_mbx_sync.py:89-90 | the selection never adds rows, and against an empty table it returns the whole first table |
| Paths.Sieve | tb_mbx_sync.py:106-112 | the loop returns `Sieved(walk)`, the eligible paths in walk order |
| Paths.SievedMembers | tb_mbx_sync.py:110-111 | a path is kept exactly when some walked file with that path is named `popstate.dat` or has no `.` in its name |
| Paths.SievedExcludesDotted | tb_mbx_sync.py:110 | a file with an extension, such as a `.msf` summary, is never kept |
| Paths.RemoveFirst | tb_mbx_sync.py:142 | `list.remove(x)` takes exactly one copy of x out of the list, and leaves the list alone when x is absent |
| Paths.RemoveFirstAt | tb_mbx_sync.py:142 | removing x whose first copy is at index j leaves the elements before and after j, in order |
| Paths.PathList.Remove | tb_mbx_sync.py:142 | reports whether x was in the list (Python raises `ValueError` otherwise), and the list becomes the list minus x's first copy, or stays unchanged |
| Paths.FirstMatch | tb_mbx_sync.py:140-144 | None exactly when no file's key is the basename; otherwise a file of the list with that key |
| Paths.FirstMatchAt | tb_mbx_sync.py:140-143 | the lookup returns the first file in list order whose key matches |
| Paths.MatchFilename | tb_mbx_sync.py:139-144 | returns the first matching file and removes it from `uniques`, or returns None with `uniques` unchanged, or raises `ValueError`, leaving `uniques` unchanged, when the match is no longer in it |
| Paths.ComparePaths | tb_mbx_sync.py:119-132 | the loop returns the same correspondence as `Match` over the two sieved trees, or the `ValueError` it raises |
| Paths.MatchExtend | tb_mbx_sync.py:125-131 | one more file of tree 1 is one more iteration of the loop |
| Paths.MatchErrSticky | tb_mbx_sync.py:125-127 | a `ValueError` ends `compare_paths`: no later file changes the outcome |
| Paths.MatchOneFiles | tb_mbx_sync.py:128-131 | each iteration either adds one matched pair for the file or adds the file to the unique-to-1 list |
| Paths.PartitionStep | tb_mbx_sync.py:128-131 | each iteration keeps the partition: matched first files plus unique-to-1 files are the files seen so far |
| Paths.MatchPartition | tb_mbx_sync.py:119-132 | every sieved file of tree 1 lands exactly once, either in a matched pair or in the unique-to-1 list |
| Paths.MatchPairs | tb_mbx_sync.py:126-129 | in each matched pair both files come from their own trees and share a key, and the second file is the first file of tree 2 with that key |
| Paths.MatchUnique1 | tb_mbx_sync.py:128-131 | a file is unique to tree 1 only when tree 2 has no file with its key, or only the empty path |
| Paths.ClaimedAvoids | tb_mbx_sync.py:141-142 | a tree-2 file claimed by earlier tree-1 files never has a key that none of those files has |
| Paths.DistinctStep | tb_mbx_sync.py:141-143 | while claimed files and remaining uniques add up to tree 2, an iteration whose match is unclaimed does not raise and keeps that count |
| Paths.MatchDistinctKeys | tb_mbx_sync.py:119-132 | when no two files of tree 1 share a key, matching never raises, and the unique-to-2 list is tree 2 minus exactly the claimed files |
| Paths.Unique2Step | tb_mbx_sync.py:128-129 | each iteration keeps "unique-to-2 plus matched second files equals tree 2" |
| Paths.MatchUnique2 | tb_mbx_sync.py:121-132 | with no empty path in tree 2, the unique-to-2 list is tree 2 minus the matched second files, as a multiset |
| Paths.KeyUnderRoot | tb_mbx_sync.py:126 | a file directly under a root `/r…` has the key `/name`, unless the name starts with the root's tail |
| Paths.RemoveAllNoStart | tb_mbx_sync.py:126 | `replace` leaves a string alone when the pattern's first byte does not occur in it |
| Paths.ExampleSieve | tb_mbx_sync.py:106-112 | the sieve of {x, y, y.msf} is {x, y}: the summary file is dropped |
| Paths.ExampleKeys | tb_mbx_sync.py:126 | stripping the roots `/a` and `/b` leaves `/x`, `/y`, `/z` |
| Paths.TwoByTwo | tb_mbx_sync.py:119-132 | two files per side where only the first ones share a key: one pair, one unique file on each side |
| Paths.ExampleProfiles | tb_mbx_sync.py:119-132 | the profiles {x, y, y.msf} and {x, z} match x with x and leave y and z unique |
| Paths.SharedKeys | tb_mbx_sync.py:126 | `replace` strips `/a` twice from `/a/a/x`, so it gets the same key `/x` as `/a/x` |
| Paths.SharedKeyRaises | tb_mbx_sync.py:139-143 | two tree-1 files with the key of one tree-2 file make the second `uniques.remove` raise `ValueError` |
| Paths.ExampleSharedKey | tb_mbx_sync.py:126-142 | `/a/x` and `/a/a/x` matched against `/b/x` raise `ValueError` |
| Framer.StoreHashes | tb_mbx_sync.py:171-231 | the loop of `store_hashes` and its `for … else` leave the table `Frame(md5, Lines(mailbox))` |
| Framer.Step | tb_mbx_sync.py:187-221 | one line advances the byte offset by its length and the line count by one, and inserts a row, the message collected so far at its noted offset, only at a separator outside a header after line 0 |
| Framer.RunShape | tb_mbx_sync.py:175-221 | after any lines, the header flag, byte offset and line count are as the separator and blank lines determine, and the recorded offsets are 0 followed by the separator offsets |
| Framer.FrameVals | tb_mbx_sync.py:178-231 | one record per separator line seen outside a header after line 0, plus the final one; the first is at offset 0, each later one at its separator's byte offset |
| Framer.EmptyMailbox | tb_mbx_sync.py:222-231 | an empty mailbox yields one record, at offset 0, fingerprinting nothing |
| Framer.ValsSnoc | tb_mbx_sync.py:200-203 | inserting a row appends its offset to the offset column |
| Framer.RunAppend | tb_mbx_sync.py:186 | the loop over two runs of lines is the loop over the first, then over the second |
| Framer.TableGrows | tb_mbx_sync.py:199-203 | rows once inserted stay in the table |
| Framer.RunHeader | tb_mbx_sync.py:209-213 | non-blank lines inside a header add exactly their whitelisted, rstripped lines to the header |
| Framer.RunBody | tb_mbx_sync.py:218-219 | body lines with no separator among them are each collected, rstripped |
| Framer.OpenMessage | tb_mbx_sync.py:189-207 | a separator outside a header enters a header with nothing collected, with the message offset at that separator |
| Framer.MessageScanned | tb_mbx_sync.py:189-221 | at the end of a message's body, its whitelisted header lines and rstripped body are collected and its offset noted |
| Framer.MessageRecorded | tb_mbx_sync.py:186-231 | a message followed by a separator or the end of the file is recorded at its separator's offset, fingerprinted from its whitelisted header lines and rstripped body |
| Framer.ClosedMessage | tb_mbx_sync.py:195-203 | a separator outside a header, after line 0, inserts the row of the message collected so far |
| Framer.HeaderOnlyRecorded | tb_mbx_sync.py:209-231 | a message whose header runs to the end of the file is the last record, with an empty body |
| Framer.FrameLast | tb_mbx_sync.py:223-231 | the last record is the one the `for … else` inserts |
| Framer.SameMessageSameHash | tb_mbx_sync.py:171-231 | the same message in two mailboxes, anywhere in each, gets the same fingerprint in both tables, at its own offset in each |
| Framer.OpenHeaderSwallows | tb_mbx_sync.py:186-231 | a mailbox that ends inside a header swallows the separator of a message appended to it: the joined file has a single record, so the appended message's own fingerprint is among its keys only on an MD5 collision |
| Extract.NextBoundary | tb_mbx_sync.py:156-160 | the index of the next separator line, which lies between the start and the end of the lines |
| Extract.NextBoundaryAt | tb_mbx_sync.py:156-160 | the search stops at the first separator line, or at the end of the lines |
| Extract.NextBoundaryBefore | tb_mbx_sync.py:159-160 | no line before the stop is a separator, and the stop, when inside the lines, is one |
| Extract.NextBoundaryShift | tb_mbx_sync.py:153-160 | searching the lines from line n is searching the whole file from line n |
| Extract.Msg | tb_mbx_sync.py:149-164 | the loop of `msg` returns `MsgText(mailbox, offset)` |
| Extract.LinesFromStep | tb_mbx_sync.py:157 | reading from a position yields the line there, then the lines from its end |
| Extract.MsgSpan | tb_mbx_sync.py:149-164 | at an offset inside the file, `msg` returns the bytes that start there, at least through the first line read |
| Extract.MsgIsSlice | tb_mbx_sync.py:157-164 | the joined lines read from an offset are the bytes of the file from that offset |
| Extract.MsgFirstLine | tb_mbx_sync.py:159-161 | the first line read is always taken, even when it is a separator |
| Extract.MsgStops | tb_mbx_sync.py:156-162 | `msg` takes the first line and then every line up to, not including, the next separator line, or up to the end of the file |
| Extract.MsgAtLine | tb_mbx_sync.py:149-164 | at the offset of line n, `msg` returns lines n up to the next separator |
| Merge.Opened | tb_mbx_sync.py:244 | `open(p, 'a')` creates an empty file when there is none and changes nothing else |
| Merge.SidecarIsSidecar | tb_mbx_sync.py:262 | the summary file of a mailbox ends in `.msf` |
| Merge.Unlinked | tb_mbx_sync.py:257-266 | the summary file is removed exactly when it exists and messages were added; nothing else changes |
| Merge.Texts | tb_mbx_sync.py:250-253 | one message text per selected offset |
| Merge.FileStore.Open | tb_mbx_sync.py:244 | the store becomes `Opened` of the old store |
| Merge.FileStore.Write | tb_mbx_sync.py:253 | the text is appended to the file |
| Merge.FileStore.Unlink | tb_mbx_sync.py:264 | the file is gone and nothing else changes |
| Merge.FileStore.CopyMessages | tb_mbx_sync.py:244-255 | the fetch loop leaves the files `Transferred` from the old files and counts one message per row |
| Merge.FileStore.CompareMsgs | tb_mbx_sync.py:237-266 | `comparemsgs` leaves the files `MsgsMerged`, and the two counts are the numbers of rows selected in each direction |
| Merge.TransferredSnoc | tb_mbx_sync.py:250-254 | one more row is one more append, with the message read from the source as it is at that moment |
| Merge.TransferredKeeps | tb_mbx_sync.py:250-254 | copying into a mailbox changes no other file |
| Merge.TransferredContent | tb_mbx_sync.py:244-255 | copying into a mailbox other than the source appends the texts of the selected messages, in row order |
| Merge.TextsSnoc | tb_mbx_sync.py:250-253 | the texts of all rows are the texts of all but the last, then the last |
| Merge.TransferredStep | tb_mbx_sync.py:253 | each append reads the source as it was before the copy started |
| Merge.TransferredHasTarget | tb_mbx_sync.py:244-253 | the target mailbox exists throughout the copy |
| Merge.SidecarsDiffer | tb_mbx_sync.py:262-264 | two different mailboxes have different summary files |
| Merge.MsgsAppended | tb_mbx_sync.py:237-266 | mailbox 0 gains the messages of mailbox 1 whose fingerprint table 0 lacks; then mailbox 1 gains the messages of the updated mailbox 0 whose fingerprint table 1 lacks |
| Merge.MsgsSidecars | tb_mbx_sync.py:257-266 | each summary file disappears exactly when it existed and its mailbox gained at least one message |
| Merge.MsgsElsewhere | tb_mbx_sync.py:237-266 | no file other than the pair and their summary files is touched |
| Merge.MsgsSelected | tb_mbx_sync.py:246-247 | the rows copied into mailbox 0 are exactly the rows of table 1 whose fingerprint table 0 lacks, every copy included |
| Merge.TransferredGrows | tb_mbx_sync.py:244-255 | copying only appends: every file keeps its old content as a prefix |
| Merge.MsgsGrows | tb_mbx_sync.py:237-266 | `comparemsgs` shortens no file and deletes nothing but summary files |
| Popstate.ReadPopstate | tb_mbx_sync.py:74-78 | reading one file yields `PopRows` of its lines |
| Popstate.ReadEntries | tb_mbx_sync.py:74-78 | the loop over the lines yields `PopRows` of those lines: the rows, or the first `IndexError` |
| Popstate.PopRowsSnoc | tb_mbx_sync.py:75-78 | a header line adds nothing; an entry line adds its row, or raises `IndexError` when it has no space |
| Popstate.PopRowsErrSticky | tb_mbx_sync.py:76 | once an entry line raises, reading the whole file raises |
| Popstate.InsertPopstates | tb_mbx_sync.py:67-78 | both tables, file 0 first, or the first `IndexError` |
| Popstate.PopRowsErr | tb_mbx_sync.py:74-76 | reading fails, with `IndexError`, exactly when an entry line after the six header lines has no space |
| Popstate.PopRowsOk | tb_mbx_sync.py:74-78 | otherwise each line after the header gives one row, in file order, with the whole line as pop tag and its second field as id |
| Popstate.Appended | tb_mbx_sync.py:91 | the target exists afterwards, created when it was missing |
| Popstate.WriteTags | tb_mbx_sync.py:91-97 | the fetch loop appends every selected pop tag to the target, in order |
| Popstate.AppendedNone | tb_mbx_sync.py:91 | appending nothing is just opening the file |
| Popstate.AppendedSnoc | tb_mbx_sync.py:96 | one more tag is one more write at the end of the file |
| Popstate.ComparePopstates | tb_mbx_sync.py:84-100 | file 1 gains first, then file 0, both from the tables built before any write |
| Popstate.PopsAppended | tb_mbx_sync.py:84-100 | each file of the pair gains the lines of the other whose id it lacks, and nothing else changes |
| Popstate.PopsNotIdempotent | tb_mbx_sync.py:67-100 | a target that still has at most six lines after the merge reads as no rows, so the same merge on the re-read tables appends the same tags again |
| Popstate.UniqueTags | tb_mbx_sync.py:89-90 | a pop tag goes across exactly when some row of the source carries it with an id the target lacks |
| Popstate.UniqueLines | tb_mbx_sync.py:74-96 | a line goes into file 1 exactly when it is an entry line of file 0 whose id is nowhere among file 1's entries |
| Popstate.PopsGrows | tb_mbx_sync.py:84-100 | `compare_popstates` only appends |
| Sync.ExitStatus | tb_mbx_sync.py:298-305 | exit status 0 exactly on a finished run, 2 exactly on the usage exit |
| Sync.Raised | tb_mbx_sync.py:301-305 | only `IndexError` is caught and becomes the usage exit; any other error escapes |
| Sync.MergePair | tb_mbx_sync.py:290-295 | only a popstate pair can raise, and a pair that raises leaves the files as they were |
| Sync.MergeMatched | tb_mbx_sync.py:290-295 | one iteration merges the pair as popstate files or as mailboxes, as `MergePair` says, and reports the error that stops the loop |
| Sync.SyncProfiles | tb_mbx_sync.py:272-305 | the whole run ends with the outcome and the files of `Script` |
| Sync.MergePairsSnoc | tb_mbx_sync.py:278 | one more pair, when no earlier one raised, is one more iteration |
| Sync.MergePairsStopped | tb_mbx_sync.py:278-292 | the first error ends the loop: later pairs change nothing |
| Sync.GrownTrans | tb_mbx_sync.py:278-295 | "only appends" composes over successive merges |
| Sync.PairGrows | tb_mbx_sync.py:290-295 | merging one pair only appends and deletes nothing but summary files |
| Sync.MergerAppends | tb_mbx_sync.py:290-295 | the loop body of the script only appends, on any files and any pair |
| Sync.MergePairsGrow | tb_mbx_sync.py:277-295 | a loop over pairs whose body only appends only appends, however it ends |
| Sync.ScriptGrows | tb_mbx_sync.py:272-305 | whatever the outcome, a run deletes no modelled file but summary files and only appends to every other file |
| Sync.EligibleNotSidecar | tb_mbx_sync.py:110-111 | the path of a kept file never ends in `.msf` |
| Sync.NameNotSidecar | tb_mbx_sync.py:110-111 | a path ending in `/name`, where the name has no `.` or is `popstate.dat`, does not end in `.msf` |
| Sync.SievedKept | tb_mbx_sync.py:125-129 | a kept path that was in the store is still there after the merges so far, so both files of a matched pair exist when their turn comes |

## Left out

- The memory purger for macOS (lines 32–62) is a daemon process that calls
  `vm_stat` and `purge`. It has no effect on the files.
- Printing is not modelled: the progress lines, "Finished!" and the usage
  text. The model records only how the run ends (`Sync.Outcome`, `Sync.ExitStatus`).
- Command-line arguments are parameters. Too few arguments raise
  `IndexError` at lines 273–274, which ends the run just as `Sync.Raised(IndexError)` does.
- Deleting and reconnecting `map.db` before each pair (lines 279–285) is
  not modelled. Each pair starts from fresh tables. The `id` column is not
  modelled either.
- The tables assume that SQLite returns rows without `ORDER BY` in
  insertion order.
- SQL quoting is not modelled. A popstate line that contains `'` would make
  the `INSERT` statement malformed (lines 77–78). The model stores the line
  as it is.
- MD5 is the parameter `md5`. Only the text it is applied to is modelled:
  the joined header lines followed by the joined body lines.
- `os.walk` is given as a sequence of (directory, name) entries in walk
  order.
- The file system is a map from path to content. Outside a summary file or
  `map.db`, a missing file raises `IOError` in the source; the model reads it
  as empty. The walked files exist by hypothesis.
- Merge.FileStore.CompareMsgs: write buffering is not modelled. Python
  buffers writes to the file opened for appending until `close`. This
  matters only when a mailbox is paired with itself, as when both profile
  paths name the same tree. The model writes at once.
- Extract.MsgSpan: states that `msg` returns a slice of the file through the
  first line read. Where it stops is stated over lines, by `Extract.MsgStops`,
  not over byte positions.
- Merge.MsgsAppended: does not state that a merge is complete or that a second
  merge adds nothing. Neither holds. The fingerprints of the joined mailbox
  are taken again, and an appended message need not keep its own. Take the
  mailbox `From - 1`, `Subject: a`, which ends inside a header, and the
  mailbox `From - 2`, `Subject: b`, a blank line, `x`. Appended after the
  first, the second message's separator is read as a header line, so the
  joined file has a single record whose fingerprint covers both subject
  lines (`Framer.OpenHeaderSwallows`). A second merge copies the message
  again. A first mailbox whose last line lacks a newline runs its last line
  and the appended separator together, with the same effect.
- Popstate.PopsAppended: does not state that a merge is complete or that a
  second merge adds nothing. Neither holds. The first six lines of a file
  are never read as entries (`i > 5`), so a target that has at most six
  lines after the merge has no ids, and the next merge appends the same
  lines again. An example is an empty `popstate.dat` paired with a file
  whose seventh line is `a b` (`Popstate.PopsNotIdempotent`). A target
  whose last line lacks a newline runs that line together with the first
  appended tag. That tag's id is then read as part of the old line, so it
  never enters the target's ids either.
- Concurrency, interrupts and file-system errors during a run are not
  modelled.
