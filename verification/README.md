# Proofs about the system utilities

Six small C programs each hold an algorithm that their users rely on without seeing it. This project models
those algorithms in Dafny, over byte sequences, and proves what the programs promise. System calls are oracles:
what they will answer is an argument, a script or a function, and every theorem holds for all of them.

- **treehash** pins a directory tree to one hash. `Sha256Rounds` and `Sha256Stream` follow the streaming SHA-256
  down to the 32-bit rounds; `KnownAnswer` and `KnownTwoBlocks` compute published digests through them, over the rows
  of rounds in `KnownRounds`. `FileDigest` hashes a file from reads of any size. `Merkle` reduces leaves level by level and proves that an equal root means
  an equal manifest or an exhibited collision. `Gitignore`, `TreeWalk` and `TreeOrder` model the recursive walk with
  its rule stack, and prove that the stack equals a stateless rule and that the order of readdir cannot show;
  `TreeFaults` says exactly when the walk succeeds.
- **snslice** cuts a stream into files of whole records. `Slice` is a byte-at-a-time reference cutter and what is
  true of its chunks; `SliceStream` is the buffered program with every way its system calls can turn out, and
  refines it; `SliceAccepts` says exactly which streams are accepted; `CsvTable` proves that a printed CSV table is
  cut exactly at its rows, and `CsvGrammar` gives the grammar of all CSV that is accepted.
- **pathaudit** explains PATH. `ProbeTable` is its open-addressing index, `FirstWins` the winner and shadow tables
  built on it, `PathSplit` the splitter that flips colons and NULs in place.
- **sysdiff** compares snapshots. `SnapshotParse` says which files are accepted and that line order is irrelevant,
  `SnapshotLines` what a file means in terms of its lines;
  `SnapshotDiff` proves that the printed difference is a patch; `DiffText` covers the escaping.
- **agentwatch** supervises a command. `ProcessTree` finds its descendants, `Supervision` escalates from TERM to
  KILL, `ExitCodes` tells its signals and its exit code from the turns alone, `Durations` reads its options.
- **openunlink** reports deleted files that are still open. `OpenUnlink` sizes, fills and decodes its line buffer.

`Bytes`, `Options`, `Decimal` and `Sorting` hold what the programs share: strings in strcmp order, values that may be
missing, decimal text, and what a caller may rely on from qsort. Programs that change state in place are classes or
methods over arrays here, each proved against a function of its inputs; the theorems are about those functions.
Inductions are written out: automatic induction is off in every lemma it would apply to.

Where the code and its documentation differ, the model follows the code:

- treehash skips every entry named `.git`, not only directories (`TreeWalk.GitFileIsSkipped`).
- treehash refuses a path from a length of 4096 bytes on, not only beyond it (`TreeWalk.LongPathIsRefused`).
- A `.gitignore` line is a comment even when blanks come before the `#` (`Gitignore.IndentedComment`).
- A `.gitignore` whose reading breaks off is taken to end there, without a failure (`TreeWalk.RulesLostSilently`).
- CSV wider than section 2 of RFC 4180 is accepted: carriage returns before a field and after a closing quote, quotes
  inside an unquoted field, and a field that is reopened by a quote after those carriage returns (`CsvGrammar.Form`).
- A TERM sweep is repeated every turn when its deadline cannot be represented (`Supervision.TermAgain`,
  `Supervision.TermTwice`), and the wait after KILL is cut short when its end cannot be (`Supervision.EarlyEnd`,
  `Supervision.GivenUpAtOnce`).
- An exit code below 124 is the command's own only because waitpid does not report ECHILD before the command has been
  reaped (`Supervision.WhoseCode`, `Supervision.CodeWithoutCommand`).
- An escape of four bytes with exactly four left passes the test for room but loses its last digit
  (`OpenUnlink.EscapeAppend`, `OpenUnlink.FlushEscapeIsCut`); the computed capacity never lets that happen.

`dafny verify dfyconfig.toml` checks everything.

## Model

| member | source | states |
|---|---|---|
| Sha256Rounds.LoadBlock | src/treehash.c:73-77 | the first sixteen schedule words are those of the block, and nothing else of the schedule changes |
| Sha256Stream.WordsAreBigEndian | src/treehash.c:72-75 | the bytes of word i, the most significant first, are bytes 4i to 4i+3 of the block, for every block |
| Sha256Rounds.ExpandSchedule | src/treehash.c:78-80 | filling the schedule in place gives the recursively defined words W(0) to W(63) of section 6.2.2 of FIPS 180-4 |
| Sha256Rounds.RunRounds | src/treehash.c:82-91 | the in-place rounds over eight variables equal the recursive Rounds over the schedule |
| Sha256Rounds.Transform | src/treehash.c:64-100 | the state array afterwards is the compression of the old state with the block |
| Sha256Stream.ZeroCountIsSmallest | src/treehash.c:142-158 | the padding adds the smallest number of zeros that makes the length 56 modulo 64, as section 5.1.1 of FIPS 180-4 asks |
| Sha256Stream.LengthIsExact | src/treehash.c:144-158 | the length field is the bit count of the message exactly when it has fewer than 2^61 bytes |
| Sha256Stream.Context.constructor | src/treehash.c:102-112 | a fresh context stands for the empty message |
| Sha256Stream.Context.Update | src/treehash.c:114-140 | appends the data to what the context stands for, through any partial block it carries |
| Sha256Stream.Context.UpdateBlocks | src/treehash.c:129-139 | whole blocks are compressed straight from the caller, the rest stays in the buffer |
| Sha256Stream.Context.PadTail | src/treehash.c:142-154 | one block or two, whichever the 0x80 byte and the zeros need; everything but the last block is then compressed |
| Sha256Stream.Context.Final | src/treehash.c:142-166 | the digest is the fold of the compression over the padded concatenation of all data passed in, whatever the calls were |
| Sha256Stream.FoldOfConcat | src/treehash.c:114-140 | hashing whole blocks one after the other continues from the state the earlier ones left |
| Sha256Stream.FoldOfBlock | src/treehash.c:64-100 | one block is one compression |
| KnownAnswer.EmptyDigest | src/treehash.c:406-409 | SHA-256 of the empty message, computed through padding, schedule and all 64 rounds, is the constant the source prints for an empty tree |
| KnownTwoBlocks.TwoBlockDigest | src/treehash.c:64-166 | the 56-byte example that NIST publishes for SHA-256 (abcdbcdecdef...nopq), padded to two blocks and computed through both compressions, has the published digest |
| FileDigest.FirstEndDecides | src/treehash.c:362-378 | whatever reads bring bytes or are interrupted before the first end of file or failure, the content is those bytes in order, and that call decides success |
| FileDigest.HashFile | src/treehash.c:347-390 | succeeds exactly when open, every read up to the end and close do, and gives the hexadecimal SHA-256 of the content, however read cuts it up or is interrupted |
| Merkle.ComputeLeafDigest | src/treehash.c:392-401 | the leaf is the SHA-256 of hex digest, two spaces, path and newline |
| Merkle.LeafRecordText | src/treehash.c:392-401 | a manifest line byte for byte |
| Merkle.SplitPoint | src/treehash.c:429-460 | the largest power of two below n, which is where the recursive tree splits |
| Merkle.SplitPointUnique | src/treehash.c:429-460 | no other power of two splits n leaves that way |
| Merkle.LevelKeepsRoot | src/treehash.c:439-451 | one pass that pairs neighbours and promotes a lone last node keeps the root of the recursive tree |
| Merkle.ReduceLevel | src/treehash.c:429-460 | the pass over the level buffers computes that level, for every count |
| Merkle.ComputeMerkleRoot | src/treehash.c:403-468 | whenever memory suffices the level-by-level loop ends and gives the root of the recursion that splits at the largest power of two (the shape of section 2.1 of RFC 6962); a failed allocation gives no root |
| Merkle.RootOfFive | src/treehash.c:429-460 | the tree over five leaves written out: pairs on the left, the lone fifth promoted twice and hashed last |
| Merkle.TreeBinds | src/treehash.c:403-468 | two nonempty entry lists with one root digest are equal, or the lemma returns two distinct messages with equal SHA-256, even for different counts |
| Merkle.RootBinds | src/treehash.c:392-468 | the same for root strings, with the empty list included: equal roots mean equal manifests or an exhibited collision |
| Merkle.PreimageLength | src/treehash.c:392-460 | what a root hashes is 64 bytes long for two entries or more and longer than that for a well-formed single entry, so leaf records and inner nodes never mix |
| TreeOrder.RootPinsTree | src/treehash.c:905-927 | what the tool is for: two trees with the same root string have the same pinned files with the same contents, or two distinct messages with equal SHA-256 are returned |
| TreeOrder.SortedListingWellFormed | src/treehash.c:905-911 | the sorted listing of a walk meets what the binding of roots asks for, and holds exactly the pinned files |
| Merkle.EmptyRootIsHex | src/treehash.c:406-409 | the constant string is the hexadecimal text of the empty digest |
| Gitignore.JoinIsInjective | src/treehash.c:704-718 | relative paths built from valid names differ when the names differ |
| Gitignore.LineMeans | src/treehash.c:492-549 | a line put together from an optional exclamation mark, an optional leading slash, a body, an optional trailing slash and any trailing blanks and line ends is the one rule with that body, negated, anchored and directory-only as its parts say; a slash inside the body anchors too |
| Gitignore.NoRuleExactly | src/treehash.c:492-534 | a line gives no rule exactly when, trimmed, it is blank, a comment, or nothing but an exclamation mark, a slash or both |
| Gitignore.LineHasParts | src/treehash.c:492-549 | every line without NUL that gives a rule is put together from such parts |
| Gitignore.RulesInOrder | src/treehash.c:492-559 | the rules of a file are those of its lines in order, whether or not the last line is ended |
| Gitignore.RuleComparesWith | src/treehash.c:565-604 | every rule is compared with the whole path below its directory, a rule that is not anchored also with the last name, and a directory-only rule with directories alone |
| Gitignore.LastMatchDecides | src/treehash.c:606-616 | of the rules that match the last decides: ignored unless it is negated; with no match nothing is ignored |
| Gitignore.RuleMeansSpec | src/treehash.c:565-604 | for a rule of an enclosing directory match_rule depends only on the components below that directory: its directory prefix test never rejects |
| Gitignore.IsPathIgnored | src/treehash.c:606-616 | the loop over the rule array gives the polarity of the last matching rule |
| Gitignore.StackVerdict | src/treehash.c:565-616 | the verdict read off the stack of rules is the stateless verdict over the .gitignore files of the ancestors, outermost first in line order |
| TreeWalk.TreehashContext.LoadGitignore | src/treehash.c:474-563 | pushes the rules that ParseRules reads off the bytes getline delivers (see Gitignore.LineMeans and RulesInOrder for what they are); returns 2 and pushes nothing exactly when the file cannot be opened, and -1 only when an allocation fails |
| TreeWalk.TreehashContext.PopRules | src/treehash.c:310-322 | removes the rules of the innermost directory and no others |
| TreeWalk.TreehashContext.VisitChild | src/treehash.c:685-766 | one directory entry: skipped, ignored, recursed into, hashed or refused, with rules and ancestors as they were |
| TreeWalk.TreehashContext.WalkDir | src/treehash.c:622-784 | returns 0 only when the stateless Succeeds holds, and always then unless an allocation fails; appends exactly the stateless listing; leaves rules and ancestors as at entry unless it returns -1, which only a failed allocation makes it do; the ancestor count equals the depth and stays below 256 at every push |
| TreeWalk.GitFileIsSkipped | src/treehash.c:689-691 | a regular file called .git is skipped like a directory, and unreadable or not it does not fail the walk |
| TreeWalk.LongPathIsRefused | src/treehash.c:693-702 | a path of exactly 4096 bytes is refused |
| TreeWalk.RulesLostSilently | src/treehash.c:492-559 | a .gitignore that breaks off at once gives no rules and no failure |
| Gitignore.IndentedComment | src/treehash.c:499-505 | a line with a blank before its hash is a comment |
| TreeWalk.LeaveDirectory | src/treehash.c:310-322 | popping by depth undoes exactly what entering the directory pushed |
| TreeFaults.SucceedsExactly | src/treehash.c:622-784 | walk_dir returns 0 exactly when the root can be walked and no path it comes to look at is at fault: too long, not to be examined, an unreadable file or an unwalkable directory that is not ignored; links, devices, pipes and sockets never are |
| TreeOrder.ListedIsPinned | src/treehash.c:622-784 | every listed entry is a regular file with no skipped component, no ignored ancestor and not ignored itself |
| TreeOrder.PinnedIsListed | src/treehash.c:622-784 | every such file below a directory is listed |
| TreeOrder.ListingIsPinned | src/treehash.c:622-784 | the walk from the root lists exactly the pinned files, where Pinned mentions no walk and no stack |
| TreeOrder.ListingDistinct | src/treehash.c:622-784 | no path is listed twice, so the sort key is unique |
| TreeOrder.SucceedsReordered | src/treehash.c:622-784 | reordering readdir in every directory does not change whether the walk succeeds |
| TreeOrder.ListingReordered | src/treehash.c:622-784 | nor which entries it collects |
| TreeOrder.ShuffleIsReordered | src/treehash.c:683-767 | a permutation of the entries of a directory is such a reordering |
| TreeOrder.ReaddirOrderIsInvisible | src/treehash.c:905-911 | after the sort the entries are strictly ascending by path, and neither status, nor entries, nor root depend on readdir order |
| Bytes.LessTransitive | src/treehash.c:324-328 | strcmp order is transitive |
| Bytes.LessTotal | src/treehash.c:324-328 | strcmp tells any two different strings apart |
| Bytes.LessMeans | src/treehash.c:324-328 | one string is before another exactly when at the first difference it has the smaller byte or has ended |
| Sorting.SortForgetsOrder | src/treehash.c:905-911 | whatever qsort does with rows whose keys differ, the result depends only on which rows there are |
| Slice.FeedOfConcat | src/snslice.c:318-447 | feeding the cutter a concatenation is feeding it the parts one after the other |
| Slice.CutIsGreedy | src/snslice.c:318-479 | on success the chunks concatenate to the input, none is empty, and each but the last is a minimal run of whole records that is full |
| Slice.ChunkLimits | src/snslice.c:418-438 | in plain numbers: no chunk has more than limit_records records and no proper part of one limit_bytes bytes; every chunk but the last has exactly limit_records records or at least limit_bytes bytes |
| Slice.OneChunkWithoutLimits | src/snslice.c:418-479 | with both limits 0 an accepted stream is one chunk, or none if it is empty |
| SliceAccepts.AcceptedExactly | src/snslice.c:318-479 | a stream is accepted exactly when it splits into good records and a good tail, in either format; and then the chunks hold those records, in that order |
| SliceAccepts.NdjsonAcceptedExactly | src/snslice.c:342-365 | NDJSON is accepted exactly when it has no NUL, ends in a line feed if it is not empty, and no line exceeds 16777216 bytes |
| Slice.ChunkSize | src/snslice.c:418-438 | with a byte limit no chunk exceeds limit_bytes - 1 + 16777216 bytes |
| Slice.CutKeepsWholeChunks | src/snslice.c:318-479 | whatever stops the cutter, any number of its finished chunks is a prefix of the input that ends with a record |
| SliceStream.ChunkPathIsInjective | src/snslice.c:209-226 | different chunk numbers give different file names |
| SliceStream.ChunkPathExample | src/snslice.c:209-226 | two names in full: one below a directory without, one below a directory with a trailing slash |
| SliceStream.ChunkNumber | src/snslice.c:209-226 | the digits in a name are the chunk's number, padded to five places and longer if need be |
| SliceStream.ProducedMeans | src/snslice.c:209-269 | after a run chunk i is the content of the file with name i, and files of other names are as they were |
| SliceStream.Slicer.AbortCleanup | src/snslice.c:194-207 | the unfinished file is gone and the finished chunks are untouched |
| SliceStream.Slicer.OpenChunk | src/snslice.c:209-247 | opens the next chunk over no existing file, or leaves exactly the finished chunks and reports a path of 4096 bytes or more, an existing file or a refusal, in that order |
| SliceStream.Slicer.WriteAll | src/snslice.c:271-288 | continues short writes and repeats interrupted ones until all bytes are in the file or a write fails, and reports a broken pipe as such |
| SliceStream.Slicer.WriteToChunk | src/snslice.c:290-316 | the active chunk grows by exactly the bytes given, opened first if need be |
| SliceStream.Slicer.CloseChunk | src/snslice.c:249-269 | a closed chunk counts as finished; a failing close removes it |
| SliceStream.Slicer.TakeByte | src/snslice.c:337-438 | one byte of the buffer moves the state exactly as one step of the byte-at-a-time cutter |
| SliceStream.Slicer.ProcessBuffer | src/snslice.c:334-447 | a buffer of any size moves it as feeding those bytes does: no buffer boundary shows |
| SliceStream.Slicer.StreamSlice | src/snslice.c:318-479 | for every script of reads, writes, opens and closes: success leaves exactly the files of the reference cut; any failure leaves only whole chunks 1 to k of it and every file that was there before; without I/O failures, and with the names free that the cut itself begins, outcome and files are those of the reference cut whatever the read sizes |
| SliceStream.NamesOfSuccess | src/snslice.c:209-247 | on success the names that must be free are those of the chunks and no more |
| SliceStream.Slicer.FinishStream | src/snslice.c:450-479 | the same for the end of the input, with its unterminated record |
| CsvTable.RowIsRecord | src/snslice.c:366-416 | a row printed by section 2 of RFC 4180 is one record: the scanner meets its first boundary on the last byte |
| CsvTable.FeedRecords | src/snslice.c:366-438 | a stream of records is taken apart into exactly those records |
| CsvTable.TableIsCutAtRows | src/snslice.c:366-479 | cutting a printed table never reports a hazard, and the records of the chunks are the rows |
| CsvTable.HazardAfter | src/snslice.c:337-416 | after any good records and the start of another: NUL is malformed input of the format, a byte beyond 16777216 is over the record limit, junk after a closing quote is malformed CSV |
| CsvTable.HazardAtEnd | src/snslice.c:450-479 | at the end of the input a started NDJSON record is malformed, a CSV record only inside quotes |
| CsvTable.SpoiltTable | src/snslice.c:392-416 | after any printed rows and fields a quoted field that is never closed, or whose closing quote is followed by a byte other than comma, quote, CR and LF, is reported as malformed CSV |
| CsvGrammar.CsvStateExactly | src/snslice.c:366-416 | what the scanner has seen of a record is spelt by a row of fields, each empty, bare, open or closed as the scanner's state says of the last, and conversely |
| CsvGrammar.CsvRecordExactly | src/snslice.c:366-416 | a CSV record is complete fields and a line feed, and nothing else is |
| CsvGrammar.JunkExactly | src/snslice.c:398-414 | a byte in the middle of a record is malformed exactly when it follows a closed field and is neither comma, quote, CR nor LF |
| CsvGrammar.CsvAcceptedExactly | src/snslice.c:318-479 | CSV is accepted exactly when it is lines of complete fields, possibly followed by complete fields without a line end, all without NUL and within 16777216 bytes; the chunks then hold those lines in order |
| ProbeTable.EmptySlot | src/pathaudit.c:479-567 | fewer items than slots leave an empty slot, so every probe loop ends |
| ProbeTable.InsertIndexed | src/pathaudit.c:537-545 | putting an item in the first empty slot of its run keeps every item reachable on its own run |
| ProbeTable.FoundFirst | src/pathaudit.c:548-567 | the first match on a probe run is the first match in item order |
| ProbeTable.DoubleUntilHalfEmpty | src/pathaudit.c:528-534 | doubling stops at a power of two at least twice the number of items and within a size_t, or refuses where the next doubling would wrap |
| ProbeTable.Table.Rehash | src/pathaudit.c:479-509 | a new table indexes the same items, or nothing has changed |
| ProbeTable.Table.InsertTail | src/pathaudit.c:515-546 | the index covers one more item at a load of at most one half, or is as it was |
| ProbeTable.Table.Append | src/pathaudit.c:569-595 | appends one item, or leaves items and index as they were, whichever allocation fails |
| ProbeTable.Table.Find | src/pathaudit.c:548-567 | returns what a scan of the items from the front would |
| FirstWins.RecordsAfter | src/pathaudit.c:1618-1667 | what the lookups decide for one more hit is what the definition over all hits demands |
| FirstWins.Recorder.RecordHit | src/pathaudit.c:1618-1667 | after any hits the winners map each command to its first hit and the shadows are exactly the distinct losing (command, path) pairs with the index of their first hit; a failed allocation changes nothing |
| FirstWins.ShadowsSeparated | src/pathaudit.c:873-887 | in a scan with distinct names per directory no two shadows compare equal |
| FirstWins.ShadowRowsAscend | src/pathaudit.c:873-887 | the sorted SHADOWED rows ascend by command, and under one command strictly by place on PATH |
| FirstWins.ReaddirOrderIsInvisible | src/pathaudit.c:1820-1841 | neither the winners nor the sorted SHADOWED rows depend on readdir order |
| PathSplit.SplitJoins | src/pathaudit.c:1083-1180 | the fields joined with colons are PATH, and no field holds a colon |
| PathSplit.MergeExactly | src/pathaudit.c:751-832 | from a missing fragment on, k fields merge exactly when every shorter join is missing, the join of k is a failed lookup, and no empty field and no overlong join is on the way |
| PathSplit.HeadExactly | src/pathaudit.c:751-832 | the first component takes in more than one field exactly when its first field is a nonempty name that is missing and those fields merge |
| PathSplit.ChargedMeans | src/pathaudit.c:1128-1179 | what is charged against the byte limit is the length of PATH up to there, with one terminator |
| PathSplit.EmptyFieldsKept | src/pathaudit.c:751-832 | coalescing neither crosses nor loses an empty field |
| PathSplit.ComponentsSpellPath | src/pathaudit.c:751-832 | for every lookup oracle the components joined with colons are the PATH value |
| PathSplit.PathComponents.CountFields | src/pathaudit.c:1094-1106 | one more than the colons, refused above 65536 |
| PathSplit.PathComponents.SplitStorage | src/pathaudit.c:1128-1179 | every colon becomes a terminator and every field a root, or the refusal names the limit that the first field at fault exceeds, its length before the bytes so far; the root counter never disagrees with the count |
| PathSplit.PathComponents.Load | src/pathaudit.c:1083-1186 | the components are the coalesced fields of PATH, each NUL-terminated at its recorded length and numbered from 0; a refused limit is that of the first field at fault, and out of memory is reported only when an allocation fails |
| PathSplit.PathComponents.TryMerge | src/pathaudit.c:778-829 | restores the separators of an accepted merge; a refused one leaves storage and roots byte for byte as they were |
| PathSplit.PathComponents.Coalesce | src/pathaudit.c:751-832 | the in-place loop leaves exactly the coalesced fields, in order |
| DiffText.PutEscapedValue | src/sysdiff.c:85-110 | the loop writes the escaped form of the value |
| DiffText.EscapeExample | src/sysdiff.c:85-110 | a letter, the arrow, a line feed and a backslash as they are printed, byte for byte |
| DiffText.HexEscapeMeans | src/sysdiff.c:101-107 | the escape of a byte is backslash, x and its two digits in upper case, the high one first |
| DiffText.UnescapeOfEscape | src/sysdiff.c:85-110 | decoding the printed form gives the value back |
| DiffText.EscapedIsPrintable | src/sysdiff.c:85-110 | the printed form is printable ASCII |
| DiffText.EscapedHasNoArrow | src/sysdiff.c:80-96 | it never contains space, hyphen, greater-than |
| DiffText.LeftmostSeparator | src/sysdiff.c:535-546 | of the two values of a changed line the leftmost " -> " is the real separator |
| DiffText.OneSeparator | src/sysdiff.c:535-546 | counted from the left without overlap there is exactly one |
| DiffText.OverlappingSeparator | src/sysdiff.c:535-546 | with overlap there can be two: a new value that starts with "-> " is a concrete case |
| SnapshotParse.SnapshotFile.ReadLine | src/sysdiff.c:179-255 | returns the bytes up to and with the line feed when none of them is at fault, and only then; otherwise the first byte at fault decides between byte limit, NUL and line length, in that order, or the stream breaks off, or an allocation fails |
| SnapshotParse.IsValidKey | src/sysdiff.c:283-304 | accepts exactly the dotted names: allowed bytes, no leading slash, no trailing dot, no two dots in a row, at least one dot |
| SnapshotParse.ParseContent | src/sysdiff.c:421-463 | a line is passed over, gives a key without equals sign and a value that together with the sign between them are the line, or is malformed exactly when it is no good line |
| SnapshotLines.StripMeans | src/sysdiff.c:421-426 | what is removed at the end of a line is LF or CR LF and nothing else |
| SnapshotLines.SkippedMeans | src/sysdiff.c:257-277 | the lines passed over are those with only blanks and those whose first other byte is a hash |
| SnapshotLines.GoodLineMeans | src/sysdiff.c:428-455 | a line is good exactly when it has at most 65536 bytes and is blank, a comment, or a valid key, an equals sign and any value |
| SnapshotLines.ContentsAreLines | src/sysdiff.c:179-255 | the contents read from a file are those between two line ends, line end removed |
| SnapshotLines.TextOfLines | src/sysdiff.c:179-255 | they come in the order of the lines, whether or not the last line is ended |
| SnapshotLines.SnapshotIsItsLines | src/sysdiff.c:367-513 | in an accepted file a key has a value exactly when some line of the file, line end removed, is that key, an equals sign and that value |
| SnapshotParse.ValidateNoDuplicates | src/sysdiff.c:352-365 | after the sort the check of neighbours finds a duplicate exactly when two keys are equal anywhere |
| SnapshotParse.EntryBuffer.Append | src/sysdiff.c:306-343 | appends one entry below the limit of 65536, or changes nothing |
| SnapshotParse.ParseSnapshot | src/sysdiff.c:367-513 | accepts only files that open, read and close and that are within the limits with good lines and different keys, all of those unless an allocation fails, and returns their entries in strictly ascending order of key |
| SnapshotParse.LineOrderIsInvisible | src/sysdiff.c:367-513 | permuting complete lines changes neither acceptance nor the sorted entries |
| SnapshotParse.PrintIgnoresLineOrder | src/sysdiff.c:614-633 | permuting the lines of either file does not change the printed text |
| SnapshotParse.CompareSnapshots | src/sysdiff.c:614-633 | status 2 whenever a file is not accepted and otherwise only when a call fails; 0 exactly when both say the same, else 1; and then the text printed, read back and applied to the first snapshot, gives the second |
| SnapshotDiff.DiffIsPatch | src/sysdiff.c:548-612 | every line of the merge fits where it stands, and applying them all turns the first map into the second |
| SnapshotDiff.DiffAscending | src/sysdiff.c:548-612 | the keys of the lines are strictly ascending in byte order |
| SnapshotDiff.NoChangesMeansEqual | src/sysdiff.c:548-612 | no line is printed exactly when the two maps are equal |
| SnapshotDiff.LineMeans | src/sysdiff.c:515-546 | the three kinds of printed line, spelt out |
| SnapshotDiff.ParseOfRender | src/sysdiff.c:515-612 | the printed text reads back as the changes it was printed from, "no changes" included |
| SnapshotDiff.PrintedDiffIsPatch | src/sysdiff.c:515-612 | the text itself is an ascending patch, and says "no changes" exactly for equal maps |
| SnapshotDiff.EmitDiff | src/sysdiff.c:548-612 | the loop over two indices prints the merge, with status 0 exactly when the snapshots are equal; status 2 only when a write or the flush fails, and the text is then the start of the whole text |
| Durations.ParseSeconds | src/agentwatch.c:85-127 | accepts exactly digits with an optional point and one to three decimals whose value is between one millisecond and 86400 seconds, and returns that value, so zero is free to mean no deadline |
| Durations.MillisecondsMean | src/agentwatch.c:85-127 | with the point taken out the digits are the duration in units of its last decimal |
| ProcessTree.DescendantsAreLeast | src/agentwatch.c:315-336 | the items with a finite parent chain to the root are the least set closed under taking children of the root and of members |
| ProcessTree.MarkPass | src/agentwatch.c:315-336 | one pass marks only descendants; if it marks none, no item is left that the rules would mark |
| ProcessTree.MarkDescendants | src/agentwatch.c:315-336 | the repeated passes end for any parent links, cyclic ones too, and mark exactly the items with a finite parent chain to the root |
| ProcessTree.ScanIsHonest | src/agentwatch.c:270-314 | the scan sees all processes, or the first of them and says that it is uncertain; an illegible record or a limit makes it uncertain and nothing else does |
| ProcessTree.FullExactly | src/agentwatch.c:284-304 | the scan stops early exactly at the 65537th numbered name or at a process number met with 4096 processes found |
| ProcessTree.UncertainExactly | src/agentwatch.c:270-314 | it is uncertain exactly when /proc does not open or ends with errno set, a limit is met, or a record is illegible |
| ProcessTree.ScanProcesses | src/agentwatch.c:270-338 | the loop over /proc fills the array with what the scan sees, and is uncertain also when the directory cannot be opened or errno is set at its end |
| ProcessTree.SignalTree | src/agentwatch.c:340-373 | the items signalled are exactly the descendants other than root and supervisor that were re-read with the same start time, each once; none, and a failure, when there is no memory |
| Supervision.AddMs | src/agentwatch.c:186-192 | adds, or refuses and leaves the value alone where a uint64_t would wrap |
| Supervision.ReapChildren | src/agentwatch.c:654-660 | keeps the first status the command was reaped with |
| Supervision.Escalate | src/agentwatch.c:680-694 | sends TERM, KILL, gives up or does nothing as the plan and the time demand |
| Supervision.Supervise | src/agentwatch.c:650-734 | the loop runs the turn machine, its sweeps are the machine's, and its code is the one the machine ends with (see ExitCodes.CodeFromTurns for what that is) |
| Supervision.Escalation | src/agentwatch.c:650-734 | over every run without overflow: at most one TERM and one KILL sweep, KILL no less than the grace after TERM; the loop ends only with no children, or with internal set two seconds or more after KILL |
| Supervision.EveryRun | src/agentwatch.c:650-734 | under a clock that does not go back, overflow counted in: a run whose first TERM deadline can be represented sends one TERM and at most one KILL, no less than the grace later; any other run sends TERM only, never KILL; and the loop ends only with no children or after KILL at its deadline |
| Supervision.TermAgain | src/agentwatch.c:680-684 | TERM is sent again on the next turn exactly when its deadline overflowed |
| Supervision.EarlyEnd | src/agentwatch.c:685-694 | the two seconds after KILL are cut short exactly when their end overflowed |
| Supervision.EndsForAReason | src/agentwatch.c:650-734 | any run ends only with no children left or with internal set |
| Supervision.UncertaintyIsInvisible | src/agentwatch.c:724-727 | two runs that differ only in what sweeps could not make out end at the same turn, with the same sweeps and the same exit code |
| Supervision.DirectStatusIsFirst | src/agentwatch.c:654-660 | the status kept for the command is the first one reaped in the whole run |
| Supervision.TimedOutExactly | src/agentwatch.c:672-678 | a timeout is recorded exactly when some live turn sees the deadline pass before an interrupt or anything else has asked for an end |
| ExitCodes.TermExactly | src/agentwatch.c:664-684 | a signal is sent exactly when some turn made asks for an end: an interrupt, the deadline, a failed start, a failed waitpid or clock, or something gone wrong before |
| ExitCodes.FirstAskSends | src/agentwatch.c:664-684 | the first turn that asks for an end sends TERM at its own time |
| ExitCodes.InternalExactly | src/agentwatch.c:661-711 | an internal failure is on record exactly when in some turn made waitpid, the clock, a sweep, its deadline or a poll failed, or the wait after KILL was given up |
| ExitCodes.CodeFromTurns | src/agentwatch.c:712-734 | the code in terms of the turns: 128 plus the interrupt; else 127 if the start failed; else 124 if some turn saw the deadline pass; else 125 if something went wrong; else the first status the command was reaped with, as its code, as 128 plus its signal, or as 125 |
| ExitCodes.EndsWithTurn | src/agentwatch.c:650-711 | every run that has ended ended with one of its turns, and later ones make no difference |
| Supervision.OwnCodeMeansClean | src/agentwatch.c:712-734 | a code below 124 is the status on record for the command, and then nothing interrupted, timed out or failed and every child is gone |
| Supervision.WhoseCode | src/agentwatch.c:654-734 | a code below 124 is the one the command was first reaped with exactly when the command was reaped at all; otherwise it is the zero that the status starts with |
| Supervision.CodeIsTheCommands | src/agentwatch.c:654-734 | if ECHILD never comes before the command has been reaped, a code below 124 is the command's own |
| Supervision.CodeWithoutCommand | src/agentwatch.c:661-663 | without that promise of waitpid one turn suffices to report 0 for a command never reaped |
| Supervision.TermTwice | src/agentwatch.c:680-684 | a concrete run that sends TERM twice: an interrupt at the last representable millisecond |
| Supervision.GivenUpAtOnce | src/agentwatch.c:685-694 | a concrete run that gives up in the millisecond of KILL |
| Supervision.EndsInTime | src/agentwatch.c:680-694 | once TERM is sent, a turn two seconds after one at the end of the grace is the last |
| OpenUnlink.FindingLineCapacity | src/openunlink.c:118-151 | the sum of its parts for any bounds, or zero where a size_t would wrap |
| OpenUnlink.CapacitySuffices | src/openunlink.c:118-151 | for every pid and fd in range, 64-bit size and target of up to 65536 bytes at least three bytes remain after escaping, and no escape is cut short |
| OpenUnlink.FixedTextIsTheRest | src/openunlink.c:118-125 | the literal the capacity starts from is the line with nothing in its fields |
| OpenUnlink.FindingMeans | src/openunlink.c:356-388 | the line with its labels in place, for every pid, fd, size and target |
| OpenUnlink.FixedTextMeans | src/openunlink.c:118-125 | the fixed text is those labels with nothing between them |
| OpenUnlink.EscapeTargetExample | src/openunlink.c:318-354 | a quote, a backslash, a line feed and a letter as they are written, byte for byte |
| OpenUnlink.EscapeAppend | src/openunlink.c:318-354 | for a buffer of any size: succeeds exactly when the escaped text fits, and then the buffer holds it exactly unless it ends flush with the buffer in a hexadecimal escape, whose last digit snprintf drops |
| OpenUnlink.FlushEscapeIsCut | src/openunlink.c:342-349 | a NUL byte with four bytes of room is a concrete case of that |
| OpenUnlink.EmitFinding | src/openunlink.c:356-388 | for a buffer of any size the line is written whole, or not at all when it does not fit |
| OpenUnlink.UnescapeOfEscapedTarget | src/openunlink.c:318-354 | decoding the quoted part gives the target back |
| OpenUnlink.FindingIsOneLine | src/openunlink.c:356-388 | whatever the target, the only line feed of a finding ends it |
| OpenUnlink.FindingIsInjective | src/openunlink.c:356-388 | a line determines pid, fd, size and target |
| OpenUnlink.ParseCanonicalInt | src/openunlink.c:240-286 | accepts exactly the canonical decimal texts up to INT_MAX, zero only where allowed, and returns their value; the bound on digits rejects nothing |
| OpenUnlink.CanonicalIsPrinted | src/openunlink.c:240-316 | those are exactly the texts that %d prints of the numbers in range |

## Left out

- System calls and the C library themselves: `fnmatch`, `stat` during coalescing and the hash functions are
  arbitrary functions, so two lookups of one text in one run are taken to agree; `qsort` is any sorted arrangement.
- Supervision.Escalation: assumes that no turn comes so close to 2^64 milliseconds that a deadline overflows;
  what happens then is stated exactly by `Supervision.EveryRun`, `Supervision.TermAgain` and `Supervision.EarlyEnd`.
- Supervision.EveryRun: assumes a clock that does not go back, as CLOCK_MONOTONIC promises.
- Supervision.EndsInTime: assumes a clock that can be read and does not go back.
- Supervision.CodeIsTheCommands: takes from waitpid that ECHILD does not come before the command has been reaped.
- TreeWalk.TreehashContext.WalkDir: the several allocations for one rule or one entry count as one, and the rules left
  on the stack when a failed allocation ends the walk with -1 are not described.
- SliceStream.Slicer.StreamSlice: unlink is taken to work, the 64-bit byte totals are unbounded, and a write that
  returns 0 is reported like a failed write; the double close of the input descriptor on failure is not modelled.
- SnapshotParse.ParseSnapshot: which line and reason a diagnostic names is not modelled.
- SnapshotDiff.EmitDiff: a line is written or not as a whole; how much of a line a failing write leaves is not modelled.
- ProbeTable.Table.Append: winners and shadows are one class over a key type, and `hash & mask` is written as a
  remainder, which is the same for the power-of-two capacities that are proved.
- ProcessTree.ScanProcesses: the parsing of names and of stat records is not part of this model; an entry is given as
  what they come to.
- OpenUnlink.EmitFinding: the enumeration, sorting and inspection of descriptors around it is left out.
- FirstWins.Recorder.RecordHit: the other findings of pathaudit (classes of PATH entries, permissions) are left out.
- Command lines, help and version texts, diagnostics and their sanitising, SIGPIPE set-up and stdio flush checks.
- The operand normalisation of treehash, which turns "/." into ".", and the printed manifest, whose names are raw.
- The test seam of agentwatch, which does not run the real loop.
- permguard: four independent bit tests that would add only easy members.
- The Python helpers, scripts and commissioning files, which are checks and fixtures around the programs.
