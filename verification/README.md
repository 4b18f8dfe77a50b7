# Log analyser: index, matching, clustering and high-availability model

This project models, in Dafny, the algorithmic core of a distributed log analyser written in Go, and proves
what its code relies on. `dafny verify dfyconfig.toml` checks the whole project.

## What is modelled

* **Rule matching** (`TrieTheory`, `AhoCorasick`, `RuleEngine`): an Aho-Corasick automaton on a heap of mutable nodes,
  read through ghost maps as a trie of words; and the diagnosis of a file with it.
* **Large-file search** (`Lines`, `Matchers`, `ByteRing`, `SearchTheory`, `SearchScan`, `FileChunks`, `ParallelSearch`,
  `LargeFileSearch`, `IndexedSearch`): the capped sequential scan, the chunked parallel scan and the scan by chunk
  index, all against one specification, the matching lines of the file in order.
* **Indexes** (`LineIndex`, `Bloom`, `BloomIndex`, `SkipScan`, `IndexFiles`, `IndexSaves`, `IndexCache`): the sparse line
  index and the Bloom-filter chunk index, built from arbitrary reads; which keywords may be skipped; the two file
  formats; how index files are replaced on disk; and the caches. The hash is any function from words to two numbers,
  with 32-bit wrap-around at the bit positions.
* **Template mining** (`DrainTheory`, `Drain`, `DrainMask`): the Drain prefix tree with its mutable clusters, and the
  masking of numbers before it.
* **High availability** (`HaState`, `HaManager`, `HaCluster`, `HaSwitchover`, `HaSync`): one manager node as a class
  whose methods take steps given as functions; two nodes as a transition system over whole runs in which heartbeat
  answers, switchover requests and their confirmations travel as messages of their own; and the conditional snapshot
  pull as another.
* **Charts, merging, cleaning, placement** (`Downsample`, `TimeWindow`, `LogMerge`, `Retention`, `Placement`).

A file is a byte sequence and a read delivers any stretch of it. Clocks, network answers, file-system failures, the
order in which goroutines finish, regular expressions and library sorts are parameters of the methods.

## Where the code keeps less than it promises

Each of these is stated with its exact condition and, where that helps, a concrete input.

* The Bloom index claims that a negative answer means the keyword is absent. Under every hash that holds exactly for
  the keywords and texts of `SkipScan.ServedExactly`, and a search of a file by index is complete exactly under
  `IndexedSearch.IndexedSearchIsExact`. Missed hits are in `HitsInsideTokens`, `AcrossTwoReads`, `WithoutToken`,
  `BeyondAscii` and `IndexedSearch.EveryHitCanVanish`.
* The chunk index loses an unterminated last line that starts exactly at a 15000-line boundary
  (`BloomIndex.BuildChunkBloomIndex`, `TailCanBeDropped`, `IndexedSearch.DroppedTailIsNotSearched`). The file comment
  at internal/worker/bloom_index.go:361-374 still names version 1 of the magic and 512-byte filters; the code writes
  `BIDX0002` and 1024 bytes.
* The worker quorum prevents two active nodes exactly when one side can always list the workers and reaches no
  majority of them (`HaCluster.NoSplitBrainExactly`), and only once the old active node has missed its limit
  (`MinorityStandsBy`, `WindowBeforeLimit`): nodes that reach the same workers are both active
  (`SharedWorkersAllowTwo`), and a node whose store cannot list the workers, as after a failed reload, passes the check
  without any (`UnlistedWorkersAllowTwo`, `CutOffRole`).
* A switchover makes two nodes active in exactly the cases of `HaSwitchover.StepMakesTwoExactly`. One that the active
  node asks for does so between arrival and confirmation, unless a node gives way, and for good when the confirmation
  is lost (`ActiveSideSwitchover`); two that cross do so with no message lost (`CrossedRequestsAllowTwo`,
  `StandbySideSafeExactly`). A lost confirmation or a late heartbeat answer can leave none active
  (`LostConfirmation`, `CompletedSwitchover`).
* "Not modified" is right exactly under the conditions of `HaSync.NotModifiedExactly`: not after a write on the
  standby (`LocalWriteGoesUnnoticed`, `OwnIdIsMistaken`), nor when a reload failed after the active node could not read
  its id (`UnreadableIdLosesDatabase`), nor when pulls overlap (`PullsSafeExactly`, `OverlappingPullsGoStale`), where
  it depends on the snapshot loaded last (`CurrentExactly`).
* All saves of an index write one temporary file. In turn they serve whole files only (`IndexSaves.SavesInTurn`);
  overlapping ones serve a mixture exactly when `IndexSaves.OverlapExactly` says so, which for a chunk index can be
  accepted and leave bytes of the log in no chunk (`IndexCache.OverlappingSavesMislead`).
* A repeated line opens a second cluster exactly when the similarity threshold is above 1
  (`Drain.DrainMiner.AddLogWithLine`). A later repeat still reaches the threshold of the cluster that counted it while
  the cluster's lines hold no masked numbers (`CountedLinesStay`), and need not when they do
  (`DrainTheory.MaskedLinesDrift`).
* A literal rule finds the lines that hold its pattern exactly under `RuleEngine.LiteralFindsItsText`: patterns are
  lowered by Unicode and lines in ASCII, so capitals beyond ASCII are missed (`CapitalBeyondAsciiIsMissed`).
* A search by regular expression first looks for a literal taken from it, and finds all lines exactly when every line
  that matches holds that literal (`Matchers.PrefilterIsExact`), which alternatives in the expression can break.
* A time window that holds no point yields other points (`TimeWindow.SliceIsWindow`).
* Merging notices neither read nor write errors and deletes the pieces all the same, those it could not open included.
  Their lines are all kept exactly when every piece was read whole and the merged text was stored, last newlines
  aside (`LogMerge.MergeKeepsLinesExactly`). A failed rename loses the target (`LogDir.MergeLogFilesIntoOne`).
* Worker choice is not the best one when two candidates report disk usage and another does not
  (`Placement.PickIsMinimalExactly`).

## Model

| member | source | states |
|---|---|---|
| TrieTheory.LongestSuffixIsLongest | internal/rules/ac_automaton.go:55-67 | every trie word that ends a text also ends the state of that text |
| TrieTheory.ExtendState | internal/rules/ac_automaton.go:91-101 | the state of a text extended by a byte depends on the state alone, not on the text |
| TrieTheory.FallBack | internal/rules/ac_automaton.go:92-101 | a state without a child for the byte moves as its failure state does |
| TrieTheory.FailOfChild | internal/rules/ac_automaton.go:56-67 | the longest proper suffix of a child is found from the failure state of its parent |
| TrieTheory.OutputMembers | internal/rules/ac_automaton.go:69-72 | a merged output list names exactly the rules with a non-empty keyword that ends the node's word |
| TrieTheory.SuffixOfStateOrText | internal/rules/ac_automaton.go:103-112 | a keyword ends the text read so far exactly when it ends the current state |
| TrieTheory.ExpandHead | internal/rules/ac_automaton.go:51-76 | expanding the head of the queue keeps breadth-first order: distinct words, level by level, nothing shallower left out |
| TrieTheory.AllDone | internal/rules/ac_automaton.go:51-76 | when the queue is empty every node of the trie has been linked |
| AhoCorasick.BuildTrie | internal/rules/ac_automaton.go:26-42 | the heap is the trie of the keywords, each node holding the rules that spell its word, in keyword order |
| AhoCorasick.InsertKeyword | internal/rules/ac_automaton.go:27-42 | one more keyword in the trie, its rule at the node it ends at, all other lists untouched |
| AhoCorasick.FindFail | internal/rules/ac_automaton.go:57-64 | climbing failure links ends at the longest suffix that has the byte, or past the root |
| AhoCorasick.LinkChild | internal/rules/ac_automaton.go:55-72 | one child gets its final failure link and output list; no other node changes |
| AhoCorasick.LinkChildren | internal/rules/ac_automaton.go:55-75 | all children of a node get theirs, in whatever order the map is ranged over |
| AhoCorasick.BuildFailLinks | internal/rules/ac_automaton.go:44-76 | every node ends with its longest-proper-suffix link and merged output |
| AhoCorasick.ACAutomaton.constructor | internal/rules/ac_automaton.go:22-79 | the finished automaton satisfies the invariant that matching relies on |
| AhoCorasick.ACAutomaton.Advance | internal/rules/ac_automaton.go:92-101 | from the state of a text to the state of the text and one byte |
| AhoCorasick.ACAutomaton.OutputsOfState | internal/rules/ac_automaton.go:103-112 | the state after a text lists exactly the rules with a keyword that ends the text |
| AhoCorasick.ACAutomaton.ScanByte | internal/rules/ac_automaton.go:91-113 | after each byte the collected rules are those whose keyword has ended so far |
| AhoCorasick.ACAutomaton.MatchOneLine | internal/rules/ac_automaton.go:83-116 | one pass returns, without duplicates, exactly the in-range unmarked rules with a non-empty keyword that is a substring of the line, and marks them |
| Bytes.LowerPairs | internal/rules/engine.go:357-372 | lowering turns each capital into the small letter of its place in the alphabet and leaves all other bytes |
| RuleEngine.ToLowerBytes | internal/rules/engine.go:357-372 | the buffer, reused or replaced, holds the ASCII-lowered text |
| RuleEngine.ListKeywords | internal/rules/engine.go:234-247 | the keyword list pairs every keyword of every rule with that rule, and nothing else; rules without keywords are listed apart |
| RuleEngine.TriggeredMeans | internal/rules/engine.go:285-293 | the automaton over that list triggers a rule exactly when the line holds one of its non-empty keywords |
| RuleEngine.FindCandidates | internal/rules/engine.go:282-297 | the candidates are, once each, the rules with a keyword in the line and those without keywords, whatever the mark array held |
| RuleEngine.LiteralFires | internal/rules/engine.go:62-67 | a literal rule is reported exactly for the lines that, lowered in ASCII, hold its pattern as it was lowered for the rule; with an empty pattern for none |
| RuleEngine.LiteralFindsItsText | internal/rules/engine.go:54-67 | a literal rule fires on every line that holds its pattern exactly when the pattern, lowered in ASCII as lines are, holds the pattern as lowered by Unicode for the rule |
| RuleEngine.CapitalBeyondAsciiIsMissed | internal/rules/engine.go:357-372 | so an ASCII pattern finds its own text, and one with a capital E with acute accent does not |
| RuleEngine.RegexFires | internal/rules/engine.go:303-313 | a rule with a regular expression fires exactly on the lines, as written, that match it and that, lowered, hold one of its keywords, if it has any |
| RuleEngine.EventShows | internal/rules/engine.go:315-326 | an event names its rule and line and shows the line: whole up to 500 bytes, else the first 500 and three dots |
| RuleEngine.InScopeAre | internal/rules/engine.go:223-232 | the rules examined are exactly those in scope |
| RuleEngine.Examine | internal/rules/engine.go:303-330 | the events of a line are those of its matching candidates, cut at the limit |
| RuleEngine.ReportOfLine | internal/rules/engine.go:282-330 | the rules reported for a line are exactly those that fire on it, once each |
| RuleEngine.DiagnoseFile | internal/rules/engine.go:221-334 | the events are, line by line, those of the rules in scope that fire on the trimmed line; the list is complete or holds exactly the limit |
| Lines.RawLinesConcat | internal/worker/searcher.go:830-842 | cutting a text at a line start cuts its lines |
| Lines.LineCount | internal/worker/searcher.go:830-851 | a line scan yields one line per newline, plus one for text after the last |
| Lines.LineEndsDoNotMatter | internal/worker/searcher.go:830-842 | lines written with LF or with CR LF are read back as they were, the carriage returns gone |
| Lines.SegmentInPlace | internal/worker/line_index.go:136-155 | each read delivers the stretch of the file at the running offset |
| LineIndex.ScanSegment | internal/worker/line_index.go:138-155 | after each read the offsets and the line count describe the bytes read so far |
| LineIndex.BuildSparseLineIndex | internal/worker/line_index.go:117-166 | however reads split the file, entry k is the byte where line 1+k*5000 starts, there is one entry per such line, and the total is the newline count; a read error gives no index |
| LineIndex.SeekPoint | internal/worker/line_index.go:268-285 | the byte to seek to is a line start with exactly the counted lines before it, none past the line wanted |
| LineIndex.ScanPage | internal/worker/line_index.go:300-314 | scanning on from a line start yields the page and the "more" flag of a scan from the top |
| LineIndex.ReadFileLinesWithIndex | internal/worker/line_index.go:251-317 | with or without index, seek failure included, the lines and the "more" flag are those of a full scan, for every start line and limit |
| LineIndex.PageIs | internal/worker/line_index.go:251-317 | line k of a page is line startLine + k of the file; a page is full or ends with the file, and more is announced exactly when the file goes on behind it |
| IndexFiles.ReadsBack | internal/worker/bloom_index.go:437-440 | a number written least byte first in n bytes is read back |
| IndexFiles.WritesBack | internal/worker/bloom_index.go:392-395 | bytes read as a number are written back as they were |
| IndexFiles.LEDigit | internal/worker/bloom_index.go:437-440 | byte i of a number is its i-th digit to the base 256, the lowest first |
| IndexFiles.SignedRoundTrip64 | internal/worker/line_index.go:185-187 | signed 64-bit fields, negative ones included, survive in both directions |
| IndexFiles.SignedRoundTrip32 | internal/worker/bloom_index.go:414-416 | signed 32-bit fields likewise |
| IndexFiles.TwosComplement | internal/worker/bloom_index.go:449-454 | negative numbers are written as what they are modulo 2 to the width |
| IndexFiles.PutUint | internal/worker/line_index.go:226-229 | writes the bytes of a number at an offset of the buffer and leaves the rest of it |
| IndexFiles.HeaderFields | internal/worker/bloom_index.go:435-440 | count, lines, size and time stand at bytes 8, 12, 20 and 28 of the header and are found again there, whatever follows |
| IndexFiles.WriteHeader | internal/worker/line_index.go:224-229 | the 36-byte header as laid out |
| IndexFiles.Magics | internal/worker/bloom_index.go:376-390 | the two kinds of index files begin with LIDX0001 and BIDX0002 |
| IndexFiles.AllReadBack | internal/worker/line_index.go:199-203 | the offsets of an index survive writing and reading |
| IndexFiles.LineFileReadsBack | internal/worker/line_index.go:168-248 | reading back a saved line index gives it field for field |
| IndexFiles.LineFileWritesBack | internal/worker/line_index.go:168-248 | every well-formed line index file is the file of what is read from it: the format is a bijection |
| IndexFiles.SaveLineIndexToDisk | internal/worker/line_index.go:214-248 | the bytes of the line index file |
| IndexFiles.LoadLineIndexFromDisk | internal/worker/line_index.go:168-212 | accepts exactly whole files of the right kind whose recorded size and time match, and then returns what they say |
| IndexFiles.RecordReadsBack | internal/worker/bloom_index.go:449-455 | a chunk record, filter included, survives writing and reading |
| IndexFiles.RecordFields | internal/worker/bloom_index.go:449-455 | where each field of a chunk record stands |
| IndexFiles.BloomFileReadsBack | internal/worker/bloom_index.go:376-470 | reading back a saved chunk index gives it field for field |
| IndexFiles.SaveBloomIndexToDisk | internal/worker/bloom_index.go:425-470 | the bytes of the chunk index file |
| IndexFiles.LoadBloomIndexFromDisk | internal/worker/bloom_index.go:376-423 | accepts exactly files of the right kind, size and time that hold all announced records; later bytes are ignored |
| IndexCache.Store.Add | internal/worker/line_index.go:81-83 | memory may drop other entries; what it holds stays right for its path |
| IndexSaves.StepInTurn | internal/worker/bloom_index.go:425-470 | while saves of an index are made in turn, every write, rename, failure or stop keeps that the one save has the temporary file to itself, and the index file changes only by a rename, to the whole file of the save |
| IndexSaves.SavesInTurn | internal/worker/bloom_index.go:425-470 | over every run of saves made in turn, however they are cut into writes, fail or stop, the index file is at every moment the whole file of the last save that was finished |
| IndexSaves.OverlapExactly | internal/worker/line_index.go:214-248 | a save that opens while another has bytes left truncates the file both write; once it is renamed the other writes on in it, and what is served is right exactly when those bytes are the same in both files |
| IndexSaves.WholeSave | internal/worker/line_index.go:214-248 | one save by itself, in pieces of 64 KB: it replaces the index file by its own, or, when it cannot open, write or rename, leaves it |
| IndexCache.Store.OpenSave | internal/worker/bloom_index.go:221-224 | a save that gets to run opens the shared temporary file; if no other save of the path is under way, all that is held stays right |
| IndexCache.Store.SaveStep | internal/worker/bloom_index.go:448-469 | any further step of a save keeps all that is held right for its path |
| IndexCache.LineIndexUnique | internal/worker/line_index.go:117-166 | a file of given content, size and time has only one line index |
| IndexCache.GetOrBuildLineIndex | internal/worker/line_index.go:59-114 | from memory, from disk or built, the index is the one that every fresh build gives, if path, size and time determine the content |
| IndexCache.FinishLineSave | internal/worker/line_index.go:104-107 | the background save of a line index, no other of its path being under way, serves its file or what was served before, and keeps all that is held right |
| IndexCache.GetOrBuildBloomIndex | internal/worker/bloom_index.go:176-231 | from memory, from disk or built, the chunk index is one a fresh build could give for the content |
| IndexCache.FinishBloomSave | internal/worker/bloom_index.go:221-224 | the background save of a chunk index likewise |
| IndexCache.MixedFileIsRead | internal/worker/bloom_index.go:376-423 | a newer index file over which an older save has written all but its first piece is accepted, and read with the last old record before the next new one |
| IndexCache.OverlappingSavesMislead | internal/worker/bloom_index.go:221-224 | a log that grew past the last chunk of its index, the 64th or a later one, while the save of that index stalled: the overlapping save of the next leaves a file that is accepted for the log but is no index of it, with bytes in no chunk |
| Matchers.FoldIsLowered | internal/worker/searcher.go:959-1001 | containment up to ASCII case is containment of the lowered texts |
| Matchers.BytesContainsFoldAscii | internal/worker/searcher.go:959-1001 | true exactly when the keyword occurs up to ASCII case |
| Matchers.WordBytes | internal/worker/searcher.go:1003-1005 | the word bytes are the 26 small letters, the 26 capitals, the ten digits and the underscore |
| Matchers.BytesContainsWholeWord | internal/worker/searcher.go:1008-1079 | true exactly when the keyword is empty or occurs, case aside if asked for, with no letter, digit or underscore beside it |
| Matchers.Examine | internal/worker/searcher.go:874-918 | the level and the match decision of a line, by filter, literal and expression |
| Matchers.LevelIsWorst | internal/worker/searcher.go:1098-1118 | the level of a line is the most severe one of which it holds a word, or else INFO |
| Matchers.FilterAdmits | internal/worker/searcher.go:1203-1211 | the filters ERROR and WARN admit what is as severe or more, any other its own level only |
| Matchers.KeywordMeans | internal/worker/searcher.go:882-890 | a keyword search finds the lines that hold the keyword, hold it case aside, or hold it as a whole word |
| Matchers.PrefilterIsExact | internal/worker/searcher.go:891-908 | a search by regular expression finds exactly the lines that match it, exactly when each of those passes the literal looked for first |
| ByteRing.Ring.Push | internal/worker/searcher.go:1141-1154 | adds a line at the end and drops the oldest when full |
| ByteRing.Ring.ToStrings | internal/worker/searcher.go:1156-1166 | the lines held, oldest first |
| ByteRing.Push | internal/worker/searcher.go:1141-1154 | the ring holds the last c of the lines pushed, for every c including 0 |
| SearchTheory.MatchesInRange | internal/worker/searcher.go:842-948 | the matching lines of a range: increasing, complete, and nothing else |
| SearchTheory.HitShows | internal/worker/searcher.go:915-940 | a complete hit shows number and bytes of its line and, before and behind it, as many lines as asked for or there are, each the right one |
| SearchTheory.StopsGivesAnswer | internal/worker/searcher.go:842-955 | either way the capped scan ends, what it holds is a correct capped answer |
| SearchScan.AdvancePending | internal/worker/searcher.go:854-866 | each waiting hit gains the line; those with full context are released in order |
| SearchScan.CappedTurn | internal/worker/searcher.go:842-948 | one turn of the capped loop keeps "settled hits out, open hits waiting" or ends with a correct answer |
| SearchScan.SearchInSingleFile | internal/worker/searcher.go:822-956 | below the cap all matching lines with their true surrounding lines; at the cap the first maxHits complete, then fewer than c more whose following lines may be cut |
| SearchScan.SearchChunk | internal/worker/searcher.go:570-694 | all matching lines of the chunk with their surrounding lines inside it, and its line count |
| FileChunks.AlignToLine | internal/worker/searcher.go:534-559 | window by window, the first line start after the newline that follows the target |
| FileChunks.CutPoints | internal/worker/searcher.go:519-559 | cut points are line starts or the end, from 0 to the file size, never decreasing |
| FileChunks.CalculateFileChunks | internal/worker/searcher.go:512-567 | the chunks are non-empty, start at line starts, cover the file without gap or overlap, and one starts behind the first newline from the start of each equal share on |
| ParallelSearch.ClippedIsSequential | internal/worker/searcher.go:697-819 | a stitched hit has the number, content and level of the sequential one; its context is the sequential one cut at the chunk |
| ParallelSearch.PartHits | internal/worker/searcher.go:799-814 | a chunk's local hits, renumbered from its first line, are the file's matches in it |
| ParallelSearch.RunWorkers | internal/worker/searcher.go:764-786 | whatever the order in which workers finish, every slot holds the result of its own chunk |
| ParallelSearch.ResultIsShare | internal/worker/searcher.go:799-814 | the result in a slot is the chunk's share of the file's matches, up to renumbering |
| ParallelSearch.Collect | internal/worker/searcher.go:795-818 | the collected hits are the shares in file order, cut at the cap, with absolute line numbers |
| ParallelSearch.StitchedCoversFile | internal/worker/searcher.go:799-816 | over chunks that cover the file, hit j of the stitched list belongs to the j-th matching line, and none is missing |
| LargeFileSearch.TiledAnswer | internal/worker/searcher.go:697-819 | chunks that cover the file give the first maxHits matching lines in order, each with the context its chunk holds |
| LargeFileSearch.SelectChunks | internal/worker/searcher.go:711-725 | keeps exactly the chunks whose filter admits the keyword |
| LargeFileSearch.SearchInSingleFileParallel | internal/worker/searcher.go:697-819 | the hits are those of the scanned chunks, in order, up to the cap; without an index they are the first maxHits matching lines of the file, with context from the share that holds the line |
| Bloom.BitOfWithBit | internal/worker/bloom_index.go:47-50 | setting a bit changes that bit only |
| Bloom.WrapIsHarmless | internal/worker/bloom_index.go:47-48 | bit i of a word is the first hash plus i times the second modulo 8192; the 32-bit wrap-around does not show |
| Bloom.Add | internal/worker/bloom_index.go:40-51 | adds exactly the four bits of the word, none for the empty word and long numbers |
| Bloom.MayContain | internal/worker/bloom_index.go:54-68 | true exactly when all bits of the word are set |
| Bloom.IsLongPureDigits | internal/worker/bloom_index.go:70-80 | more than four bytes, all of them digits |
| Bloom.TokenBytes | internal/worker/bloom_index.go:318-324 | the bytes of tokens are the letters, the digits, the underscore and the hyphen |
| Bloom.TokenBitsAre | internal/worker/bloom_index.go:318-348 | the recorded bits are those of every maximal token run of 2 to 64 bytes, and no others |
| Bloom.ToLowerAscii | internal/worker/bloom_index.go:350-359 | the buffer holds the lowered token |
| Bloom.ExtractTokensToBloom | internal/worker/bloom_index.go:318-348 | adds exactly the bits of the tokens of the data |
| Bloom.MayContainSearchKeyword | internal/worker/bloom_index.go:83-125 | true exactly when the trimmed and lowered keyword is short, or all its tokens' bits are set and, lacking tokens, so are its own |
| Bloom.TrimIs | internal/worker/bloom_index.go:84 | trimming takes white space off both ends of a keyword and nothing else |
| BloomIndex.TokensOfStretch | internal/worker/bloom_index.go:265-274 | the tokens of a stretch between newlines or reads are the tokens the whole scan sees there |
| BloomIndex.CloseLine | internal/worker/bloom_index.go:276-292 | counts a newline; the 15000th closes the chunk and opens the next with an empty filter |
| BloomIndex.ScanSegment | internal/worker/bloom_index.go:262-297 | after each read the chunks, counters and current filter describe the bytes read so far |
| BloomIndex.BuildChunkBloomIndex | internal/worker/bloom_index.go:234-315 | however reads split the file: chunks adjoin from byte 0 at line starts, all but the last of 15000 lines, know their first line and newline count, and hold exactly the tokens read in them; they reach the end of the file exactly when no tail is dropped |
| BloomIndex.ChunksAdjoin | internal/worker/bloom_index.go:280-311 | each chunk is sound, numbered by position, and starts where the previous ends |
| BloomIndex.ChunkLines | internal/worker/bloom_index.go:280-296 | chunk i starts at line 15000 i + 1, and every chunk but the last holds 15000 lines |
| BloomIndex.LastChunkGrows | internal/worker/bloom_index.go:280-311 | when a file has grown past its last chunk there are more chunks, and the next one starts after the old end |
| BloomIndex.TailCanBeDropped | internal/worker/bloom_index.go:306-311 | 15000 equal lines of any length and a last line without newline: the last line is in no chunk, in files of 32 MiB and more |
| SkipScan.ServedIsAdmitted | internal/worker/bloom_index.go:83-125 | a keyword all of whose tokens were read in a chunk is admitted by its filter, whatever the hash |
| SkipScan.ServedExactly | internal/worker/bloom_index.go:83-125 | a filter admits a keyword under every hash exactly when the keyword is short, or has an indexed token (or over 64 bytes) and all its indexed tokens, long numbers apart, were read in the chunk |
| SkipScan.WordBytesAreTokenBytes | internal/worker/searcher.go:1003-1005 | the bytes that bound a whole word are those of index tokens but the hyphen |
| SkipScan.TokenOfOccurrence | internal/worker/bloom_index.go:318-348 | a token of the trimmed keyword is a token wherever the keyword occurs between non-token bytes within one read |
| SkipScan.CoveredIsServed | internal/worker/bloom_index.go:318-348 | such an occurrence of a safe ASCII keyword is served |
| SkipScan.NeverMissedExactly | internal/worker/bloom_index.go:83-125 | an ASCII keyword is never missed in such occurrences exactly when it is shorter than 2 bytes, has a token of 2 to 64 bytes, or is longer than 64 bytes |
| SkipScan.InsideLongerToken | internal/worker/bloom_index.go:318-348 | in a file of any number of lines that are one longer token each, every shorter word is missed in every chunk, under some hash |
| SkipScan.HitsInsideTokens | internal/worker/bloom_index.go:322-323 | missed hits in files of any length: inside a longer token, and whole words beside a hyphen |
| SkipScan.AcrossTwoReads | internal/worker/bloom_index.go:260-274 | a missed hit at any place of a file of any length: a token split by two reads |
| SkipScan.WithoutToken | internal/worker/bloom_index.go:121-123 | a keyword without a token of indexed length is missed in every file |
| SkipScan.BeyondAscii | internal/worker/bloom_index.go:84 | missed hits in files of any length: a keyword whose Unicode lower-casing brings in ASCII letters |
| LargeFileSearch.KeptYieldsAll | internal/worker/searcher.go:714-725 | skipping changes nothing exactly when no skipped chunk holds a matching line |
| IndexedSearch.LineAtIs | internal/worker/searcher.go:580-600 | line k of the file is the text from its start byte to the next newline |
| IndexedSearch.SkipKeepsKeyword | internal/worker/searcher.go:714-725 | a chunk with a line that holds a safe ASCII keyword between non-token bytes or line ends, within one read, is admitted |
| IndexedSearch.IndexTiles | internal/worker/bloom_index.go:306-311 | the chunks of an index cover a non-empty file exactly when its tail was not dropped |
| IndexedSearch.IndexedSearchIsExact | internal/worker/searcher.go:711-725 | for every non-empty file, the search by index returns the first maxHits matching lines under every hash and every cap exactly when every chunk with a matching line serves the keyword, if there is one, and no tail that matches was dropped |
| IndexedSearch.IndexedSearchIsComplete | internal/worker/searcher.go:711-725 | so it does when no matching tail was dropped and every match is an occurrence of a safe ASCII keyword between non-token bytes within one read |
| IndexedSearch.SkippedMatchLoses | internal/worker/searcher.go:711-725 | a chunk that is skipped although it holds a match costs a hit at some cap |
| IndexedSearch.TailLoses | internal/worker/bloom_index.go:306-311 | and so does a dropped tail that matches, whatever the hash |
| IndexedSearch.AllCanBeSkipped | internal/worker/searcher.go:714-725 | a keyword the whole file does not serve is answered with no hit under some hash |
| IndexedSearch.EveryHitCanVanish | internal/worker/searcher.go:714-725 | a file of any number of lines that all match, and no hit under some hash |
| IndexedSearch.DroppedTailIsNotSearched | internal/worker/searcher.go:711-725 | when a tail was dropped, no hit can carry the number of the last line |
| DrainTheory.LenKeyInjective | internal/indexer/drain.go:304 | different lengths have different length keys |
| DrainTheory.GeneraliseCovers | internal/indexer/drain.go:253-262 | after generalising, the pattern covers the line and only gained wildcards |
| DrainTheory.WidensKeepsCover | internal/indexer/drain.go:253-262 | a widened pattern still covers every line it covered |
| DrainTheory.GeneraliseKeepsSimilarity | internal/indexer/drain.go:375-386 | generalising against a line never makes the pattern less similar to it |
| DrainTheory.CoveredSimilarity | internal/indexer/drain.go:375-386 | all lines without wildcards that a pattern covers are equally similar to it: by the fraction of its positions that are no wildcards |
| DrainTheory.GeneralisedFixed | internal/indexer/drain.go:253-262 | generalised against a line without wildcards, that fraction becomes the similarity of the two |
| DrainTheory.MaskedLinesDrift | internal/indexer/drain.go:375-386 | with masked numbers it fails: a line that joined at a threshold of 0.4 is not similar at all after another joined |
| DrainTheory.SearchFollowsFiling | internal/indexer/drain.go:313-323 | a search follows the path under which insertion files the same tokens |
| DrainTheory.FiledUnder | internal/indexer/drain.go:338-362 | the filing path is the length key and then the tokens, those with a digit as wildcards |
| DrainTheory.SearchKeysAgree | internal/indexer/drain.go:313-323 | a search passes only keys that are wildcards or its own tokens |
| DrainTheory.KeysSurviveGeneralise | internal/indexer/drain.go:258-262 | path keys that agree with a pattern and a line agree with the generalised pattern |
| Drain.WorstLevelIsWorst | internal/indexer/drain.go:250-252 | the reported level is one of the lines' and none is more severe |
| Drain.ReportedLevel | internal/indexer/drain.go:289-300 | FATAL and CRITICAL outrank ERROR, which outranks WARN and WARNING; all else comes last |
| Drain.Cluster.Join | internal/indexer/drain.go:244-262 | one more line: counted, level and files updated, pattern generalised, every counted line still covered |
| Drain.Cluster.MergeTokens | internal/indexer/drain.go:253-262 | positions that differ become wildcards, in place, and only those |
| Drain.SeqSimilarity | internal/indexer/drain.go:375-386 | the number of positions at which two lists agree, divided by their length; 0 for different lengths |
| Drain.DrainMiner.TreeSearch | internal/indexer/drain.go:302-336 | the first of the most similar candidates at or above the threshold, and none exactly when no candidate reaches it |
| Drain.DrainMiner.OpenPath | internal/indexer/drain.go:338-362 | walks and grows the filing path; the tree keeps its shape and its clusters |
| Drain.DrainMiner.TreeAdd | internal/indexer/drain.go:338-364 | files the cluster at the end of its path and nothing else |
| Drain.DrainMiner.CandidateFits | internal/indexer/drain.go:302-336 | every candidate has the length of the line, and its path agrees with the line |
| Drain.DrainMiner.JoinListed | internal/indexer/drain.go:244-262 | joining changes one cluster: lists of the others, invariant and filing stay |
| Drain.DrainMiner.NewClusterIsFound | internal/indexer/drain.go:302-364 | a newly filed cluster is found by its own tokens exactly when the threshold is at most 1 |
| Drain.DrainMiner.AddLogWithLine | internal/indexer/drain.go:221-287 | which way a line goes, what is recorded, patterns only widen, and an immediate repeat of an accepted line joins exactly when the threshold is at most 1, and then the very cluster that counted the line |
| Drain.DrainMiner.OneIsChosen | internal/indexer/drain.go:320-335 | the search picks at most one cluster for a line, so the cluster chosen again is the same one |
| Drain.DrainMiner.CountedLinesStay | internal/indexer/drain.go:244-262 | however often a pattern is widened, every line its cluster has counted stays at or above the threshold, as long as none of the cluster's lines holds a wildcard |
| Drain.DrainMiner.CountsAddUp | internal/indexer/drain.go:243-286 | the counts add up to the number of accepted lines |
| Drain.DrainMiner.WhereClustersSit | internal/indexer/drain.go:338-364 | clusters of length n sit only at depth min(maxDepth, n) under the key for n; keys below it hold no digit and equal the current tokens or are wildcards |
| DrainMask.FastReplaceDigits | internal/indexer/drain.go:167-209 | every run of digits is replaced by the wildcard exactly when no letter, digit or underscore stands beside it, what is around it masked by itself; texts without digits stay |
| DrainMask.RunDecides | internal/indexer/drain.go:190-202 | a run of digits becomes a wildcard exactly when neither neighbour is a word byte, and its surroundings are masked as if it were not there |
| DrainMask.RunOfDigits | internal/indexer/drain.go:190-202 | the same with letters, digits and underscore listed |
| DrainMask.MaskTwice | internal/indexer/drain.go:167-209 | masking twice is masking once |
| DrainMask.NumbersDoNotMatter | internal/indexer/drain.go:191-199 | lines that differ only in a number that stands alone are masked alike |
| HaManager.CollectWorkers | internal/manager/ha_quorum.go:84-91 | the workers among the registered nodes, each once |
| HaManager.ProbeAll | internal/manager/ha_quorum.go:102-120 | the number of workers that answer, in whatever order the replies come |
| HaManager.CheckWorkerQuorum | internal/manager/ha_quorum.go:74-125 | reports how many workers are registered and how many of them answer; passes exactly when more than half answer, or there are none, or they cannot be listed |
| HaManager.CheckSplitBrainSafety | internal/manager/ha_quorum.go:128-156 | gateway first, then quorum; what is reported with each refusal |
| HaState.QuorumOf | internal/manager/ha_quorum.go:122-124 | passing is a strict majority |
| HaState.TakesOverExactly | internal/manager/ha.go:365-396 | a standby takes over on a miss exactly when that reaches its limit and the gateway, if there is one to check, answers and, if workers are to be counted and listed, more than half answer; else it notes why |
| HaState.StepsDownExactly | internal/manager/ha.go:399-412 | an active node steps down on a miss exactly when that reaches its limit and it is to count workers and at most half of those listed answer |
| HaManager.HAManager.constructor | internal/manager/ha.go:66-79 | a backup starts as standby, all others as active |
| HaManager.HAManager.Start | internal/manager/ha.go:247-269 | once started, a node of a pair that finds an interface holds the address exactly when it is active and one is configured |
| HaManager.HAManager.ProbePeer | internal/manager/ha.go:299-355 | an answer ends the row of misses and makes a primary yield to an active peer; anything else is a miss; the address stays with the role |
| HaManager.HAManager.MarkPeerFailure | internal/manager/ha.go:357-413 | a miss: below the limit only counted; at it a standby takes over if safe, an active node without quorum steps down |
| HaManager.HAManager.PromoteToActive | internal/manager/ha.go:416-428 | becomes active, counts the failover, binds the address: it is held afterwards exactly when one is configured, if that was so before; nothing when already active |
| HaManager.HAManager.DemoteToStandby | internal/manager/ha.go:431-442 | becomes standby and releases the address; nothing when already standby |
| HaManager.HAManager.BeginSwitchover | internal/manager/ha.go:445-467 | in every pair of nodes that includes this one, the request goes out exactly when the run model's event Asks adds one, and it is that one |
| HaManager.HAManager.EndSwitchover | internal/manager/ha.go:464-485 | whatever role the reply finds, this node changes role only on a confirmation, to the opposite of what it asked for, as the run model's event Confirms does |
| HaManager.HAManager.BindVipLocked | internal/manager/ha.go:496-524 | holds the address afterwards whenever one is configured and an interface is found, and changes nothing else |
| HaManager.HAManager.ReleaseVipLocked | internal/manager/ha.go:532-547 | does not hold the address afterwards whenever one is configured and an interface is found, and changes nothing else |
| HaCluster.CountedInARow | internal/manager/ha.go:341 | in every run a node counts no more misses than there were since the last answer |
| HaCluster.TakesOverAfterLimit | internal/manager/ha.go:357-396 | in every run a standby takes over on a miss only when it and the misses before it, with no answer in between, reach the limit, and only when what it finds allows it |
| HaCluster.OnlineIsLastOutcome | internal/manager/ha.go:338-361 | a node takes its peer to be up exactly when its last heartbeat was answered |
| HaCluster.FailoversCounted | internal/manager/ha.go:394-426 | the failovers reported are the times the node became active, by failover or switchover |
| HaCluster.OneMajority | internal/manager/ha_quorum.go:122-123 | two disjoint sets of workers are not both majorities |
| HaCluster.MinorityStandsBy | internal/manager/ha.go:357-413 | in a partition a node that can list the workers and reaches no majority is active exactly when it was and its misses, earlier ones included, are below its limit or none came |
| HaCluster.CutOffRole | internal/manager/ha_quorum.go:79-82 | a node without majority that may also fail to list the workers keeps its role up to the first deciding miss and is then active exactly when the workers were not listed at the last one |
| HaCluster.UnopposedTakesOver | internal/manager/ha.go:365-396 | a standby that reaches a majority or cannot list the workers at each miss is active from its limit-th miss on |
| HaCluster.MajorityTakesOver | internal/manager/ha.go:365-396 | a standby that reaches a majority is active from its limit-th miss on |
| HaCluster.NoSplitBrainExactly | internal/manager/ha.go:357-413 | once both nodes began as standby or missed their limit, no run of the partition has two active exactly when one of them can always list the workers and reaches no majority of them |
| HaCluster.PartitionSafety | internal/manager/ha.go:357-413 | so two nodes that list the same workers and reach disjoint ones are never both active then, in every interleaving |
| HaCluster.WindowBeforeLimit | internal/manager/ha.go:399-412 | after A, cut off from the workers, has missed n heartbeats and B has taken over, both are active exactly when n is 0 or below the limit of A |
| HaCluster.SharedWorkersAllowTwo | internal/manager/ha_quorum.go:122-123 | nodes that each reach a majority are both active after their limits, the workers shared or not: reachability is no exclusive vote |
| HaCluster.UnlistedWorkersAllowTwo | internal/manager/ha_quorum.go:79-82 | a node that cannot list the workers takes over, reaching none of them, beside an active node that reaches a majority |
| HaSwitchover.StepMakesTwoExactly | internal/manager/ha.go:343-484 | a step makes a second node active exactly when it delivers an active node's request to a standby, confirms a standby's request whose peer is active again, or is a failover beside an active peer |
| HaSwitchover.TwoArisesExactly | internal/manager/ha.go:343-484 | in every run from at most one active node, two are active at some point exactly when such a step is taken |
| HaSwitchover.NeverTwoByStandbySwitchover | internal/manager/ha.go:472-485 | however messages are lost, delayed or reordered, requests of the standby made in turn never give two active nodes |
| HaSwitchover.CrossedRequestsAllowTwo | internal/manager/ha.go:446-484 | crossing requests do: the demoted node asks back before its peer has heard, and both end active with no message lost |
| HaSwitchover.StandbySideSafeExactly | internal/manager/ha.go:472-485 | all runs of standby-side requests are free of two active nodes exactly when requests are made in turn |
| HaSwitchover.ExchangeRoles | internal/manager/ha.go:445-486 | both roles at every point of every interleaving of one request's messages with heartbeats |
| HaSwitchover.ActiveSideSwitchover | internal/manager/ha.go:459-471 | in one exchange two are active exactly between arrival and confirmation of an active node's request while neither has given way |
| HaSwitchover.CompletedSwitchover | internal/manager/ha.go:459-485 | a confirmed switchover ends with the old active node on standby and the other active, unless that one has given way to a late heartbeat answer: then none is |
| HaSwitchover.LostConfirmation | internal/manager/ha.go:472-485 | with a standby's request none is active exactly from its arrival until the sender hears, or after a giving way |
| HaSwitchover.DualActiveHeals | internal/manager/ha.go:343-353 | two active nodes of which one is primary become one when a heartbeat answer first reaches the primary and not before |
| HaSwitchover.OnlyPrimaryYields | internal/manager/ha.go:345 | an answer that reports an active peer ends a dual-active state exactly when it reaches a node configured primary |
| HaSwitchover.VipFollowsRole | internal/manager/ha.go:496-547 | in every run only an active node holds the virtual address |
| HaSwitchover.VipHeldExactly | internal/manager/ha.go:247-547 | from the start of both nodes on, in every run, a node holds the virtual address exactly when it is active and one is configured |
| HaSync.Store.ReloadFromSnapshot | internal/store/store.go:183-227 | a bad snapshot leaves the database; a failed rename leaves the old one, if it reopens, or none; a failed open leaves none; success installs the snapshot |
| HaSync.HASyncEngine.SyncOnce | internal/manager/ha_sync.go:67-133 | every branch: who pulls, the status, and that the known id moves only after a successful reload |
| HaSync.HandleSnapshot | internal/manager/api.go:2387-2412 | "not modified" exactly when a known id is sent, the own id can be read and is that one; else a snapshot under the id read before, no newer than the snapshot and equal to its id exactly when nothing was committed in between |
| HaSync.RunDoesSyncOnce | internal/manager/ha_sync.go:108-125 | reloading and noting in a run leave database and known id as one SyncOnce call does |
| HaSync.RunDoesHandleSnapshot | internal/manager/api.go:2387-2412 | reading the id, commits and exporting in a run answer as HandleSnapshot does |
| HaSync.StepKeepsInv | internal/manager/api.go:2387-2412 | every event keeps: the standby holds a version of the active node at least as new as the noted id; once written to it is past that id, or at it when its own id was taken |
| HaSync.NotModifiedExactly | internal/manager/api.go:2387-2412 | when pulls do not overlap, a "not modified" answer is right exactly when the standby's database is open and not written to since its last snapshot, or its own id was taken for the active node's and the contents agree |
| HaSync.NotModifiedIsSound | internal/manager/api.go:2387-2412 | while the active node can read its id, exactly when the standby has not been written to since its last snapshot |
| HaSync.CurrentExactly | internal/manager/ha_sync.go:108-125 | over every run, pulls overlapping or not: a standby not written to since its last snapshot holds the active node's current database exactly when its own is open and no commit came after the export of the snapshot that was loaded last |
| HaSync.PullsSafeExactly | internal/manager/ha_sync.go:51-64 | with no write on the standby and readable ids, "not modified" is right in all runs exactly when pulls are kept from overlapping |
| HaSync.LocalWriteGoesUnnoticed | internal/manager/ha_sync.go:81-101 | a write on the standby breaks that: the next pull is answered "not modified" over different data |
| HaSync.OverlappingPullsGoStale | internal/manager/ha_sync.go:62-64 | two overlapping pulls break it, for good |
| HaSync.UnreadableIdLosesDatabase | internal/manager/api.go:2387-2390 | with an id that could not be read a failed reload leaves no database under a noted id that is still current |
| HaSync.OwnIdIsMistaken | internal/manager/ha_sync.go:122-124 | a write before the standby takes its own id goes unnoticed too |
| Downsample.FindExtremes | internal/worker/chart_engine.go:270-285 | the smallest and the largest value of the bucket |
| Downsample.ExactBoundsAreBounds | internal/worker/chart_engine.go:239-240 | without rounding errors the bounds cut all points into adjoining buckets |
| Downsample.BoundsOfAreBounds | internal/worker/chart_engine.go:261-264 | floors of products that start at 0, never decrease and fall short of n by at most 1 cut all points but perhaps the last into adjoining buckets |
| Downsample.ExactProductRounds | internal/worker/chart_engine.go:239-262 | the exact products are such |
| Downsample.SelectExtremes | internal/worker/chart_engine.go:260-289 | the extremes of every non-empty bucket are selected, at most two points a bucket |
| Downsample.SortIndices | internal/worker/chart_engine.go:292-297 | the selected indices in increasing order, each once |
| Downsample.RemapAnomalies | internal/worker/chart_engine.go:321-333 | the anomalies at kept points, in order, each pointing to its new place |
| Downsample.DownsampleMinMax | internal/worker/chart_engine.go:232-339 | short charts and targets below 4 unchanged; else the points at a selection that holds both ends, all anomalies in range and every bucket's extremes, and nothing else |
| Downsample.ExtremesSurvive | internal/worker/chart_engine.go:231-289 | the global minimum and maximum of every full-length series are kept, however the bounds are rounded |
| Downsample.AnomalySurvives | internal/worker/chart_engine.go:321-333 | every anomaly at a kept point keeps its label and the values of all series there |
| Downsample.EndsSurvive | internal/worker/chart_engine.go:244-246 | the first and last point stay so, and there are at most 2 + anomalies + 2*buckets*full series points |
| TimeWindow.LeByFirstDifference | internal/worker/chart_engine.go:174-192 | labels are compared at the first character in which they differ, a label before every longer one that it begins |
| TimeWindow.FindWindow | internal/worker/chart_engine.go:174-192 | first label at or after the start, last at or before the end; a bound no label meets is ignored |
| TimeWindow.SliceByTimeWindow | internal/worker/chart_engine.go:168-229 | labels, series and anomalies between the two points; everything when they cross |
| TimeWindow.ValuesKeepLabel | internal/worker/chart_engine.go:198-212 | a value of a slice stands at the label it had, and a full series stays full |
| TimeWindow.AsManyAnomalies | internal/worker/chart_engine.go:214-222 | a slice has as many anomalies as lie between the two points |
| TimeWindow.AnomalyKeepsLabel | internal/worker/chart_engine.go:214-222 | each of those is among them, at the label it had |
| TimeWindow.SliceIsWindow | internal/worker/chart_engine.go:174-196 | with labels in order the slice is exactly the window exactly when some point lies in it |
| LogMerge.TerminateKeepsLines | internal/worker/extractor.go:319-324 | completing the last line changes no line |
| LogMerge.CopySource | internal/worker/extractor.go:326-336 | appends what the reads deliver, for every split into buffers, counting its newlines |
| LogMerge.MergeSources | internal/worker/extractor.go:309-343 | what is written has exactly the lines that the opened pieces delivered, in order, all complete, and the count is theirs |
| LogMerge.LinesOfPrefix | internal/worker/extractor.go:326-335 | a text cut short has the lines of the whole exactly when at most the last newline is missing |
| LogMerge.MergeKeepsLinesExactly | internal/worker/extractor.go:326-346 | the file on disk has all lines of all pieces exactly when every piece was read whole and the merged text was stored, last newlines aside |
| LogMerge.LogDir.MergeLogFilesIntoOne | internal/worker/extractor.go:300-369 | the directory and the line map after success and each failure; when the deleted pieces leave all their lines behind |
| LogMerge.SourceSurvives | internal/worker/extractor.go:312-338 | the lines delivered by every opened piece are a run of the lines written |
| Retention.IsArchiveExemptFromAutoClean | internal/manager/retention.go:85-109 | pinned, or some tag and some protected tag, neither blank, are the same up to case |
| Retention.ArchiveStore.CleanExpired | internal/manager/retention.go:118-133 | removes exactly the unprotected archives uploaded before the cutoff that can be deleted |
| Retention.ArchiveStore.RemoveOldest | internal/manager/retention.go:183-201 | considers archives oldest first and stops as soon as the estimate is at most the target percentage of the disk; failed deletions free nothing |
| Retention.ArchiveStore.CleanNode | internal/manager/retention.go:160-203 | deals with the oldest unprotected archives of one node: what is then left of the used megabytes is at most the target percentage of the disk, unless none is left to delete, and with one archive fewer it was more |
| Retention.ShortestRun | internal/manager/retention.go:183-201 | every run of oldest archives shorter than the one dealt with leaves more than the target percentage of the disk, and that one and all longer ones do not, failed deletions included |
| Retention.TurnReachesTarget | internal/manager/retention.go:142-203 | a node's turn in numbers: online and at 92 percent or the mark set, it is cleaned down to 75 percent or the target set; else nothing goes |
| Retention.ArchiveStore.RunRetentionCycle | internal/manager/retention.go:112-206 | the whole store after a cycle: expired ones gone, then in turn each node over its emergency mark cleaned oldest first down to its target; nothing protected goes |
| Placement.PickLowestUsageWorker | internal/manager/scheduler.go:165-212 | a worker that is online, heard from within 15 seconds, writable and, if it reports free space, has more than the bytes required, whenever there is one |
| Placement.OrderIsWeak | internal/manager/scheduler.go:215-239 | each of the two comparisons alone is a strict weak order |
| Placement.BestIsMinimal | internal/manager/scheduler.go:204-211 | where the comparison is one order, the pick is minimal |
| Placement.PickMeans | internal/manager/scheduler.go:215-239 | where all report their usage no candidate has less of its disk used; where none does, none stores fewer bytes, and then free space and tasks decide |
| Placement.PickByPercent | internal/manager/scheduler.go:215-239 | among candidates that use as much of their disks none has a lower percentage |
| Placement.CircleHasNoBest | internal/manager/scheduler.go:215-239 | two nodes that report usage and one that does not can compare in a circle |
| Placement.PickIsMinimalExactly | internal/manager/scheduler.go:165-239 | the pick is minimal whatever the values exactly when all candidates report their usage or at most one does |

## Left out

- HTTP handlers, sessions, SSH deployment, disk probing, the JavaScript interface, metrics and the AI prompts: plumbing and text formatting.
- Archive decompression, directory walks and nested unpacking: foreign libraries and file-system effects.
- Timestamps and file paths of hits and events, the histogram and facets of a search: copied or formatted values.
- The order of hits over several files and the 60-second query cache: the first depends on the schedule, the second is a map lookup with an expiry time.
- Cancellation, and open errors inside the two file searches: a cancelled search returns what it has or an error.
- Lines longer than the scanner's 10 MB limit.
- Regular expressions and the keywords extracted from them: any predicate and any keyword list; that an extracted keyword is always required by the expression does not hold in general.
- The preprocessing rules before clustering, except the masking of numbers: tokens, level and time stamp are inputs of the miner; `GetTemplates` only sorts for display.
- The cluster id (an MD5 prefix) and the upper-casing of levels before they are ranked: levels are taken as upper-case.
- Floating-point rounding in the Drain similarity and the usage percentages: exact rationals. The float products that bound the chart's buckets are any that start at 0, do not decrease and end at most 1 short.
- `NaN` chart values: every value lies between the smallest and the largest float.
- `UpdateConfig` of the manager: it overwrites the virtual address before releasing the old one and may turn a standalone node into a standby that still holds it, so it is not a step of `HaCluster` or of `HAManager`.
- Latencies, time stamps and log output of the manager; the gateway ping and the interface detection are environment answers.
- bbolt internals: a database is a version with an id that grows by commit. A failed export loses the pull; what a snapshot cut short would open as is up to that library. An unreadable id header, which the active node never sends, is covered by `SyncOnce` but not by the runs.
- SearchScan.SearchInSingleFile: maxHits is at least 1, as both callers pass fixed positive limits.
- LargeFileSearch.SearchInSingleFileParallel: maxHits is at least 1 likewise, and the index belongs to the bytes that are searched.
- HaManager.CheckWorkerQuorum: node ids are distinct, as they are the store's keys.
- HaSwitchover.VipFollowsRole: every node finds a network interface, as the detection falls back to a fixed name.
- HaCluster.NoSplitBrainExactly: nothing passes between the nodes during the partition; what a node does under its own lock, a failover with its checks included, is one step.
- HaSync.NotModifiedExactly: pulls do not overlap, which `PullsSafeExactly` shows to be needed.
- HaSync.Store: a write transaction and a reload are single steps. Writes do not take the store's lock; it is the library's own write transactions, and its close, which waits for them, that make them so. The order of commits is that of their ids.
- IndexCache.GetOrBuildLineIndex: the stripe lock is not modelled; each of its steps relies only on the invariant that every other step keeps, saves of one path being made in turn. A reader that has an index file open while saves of it overlap is not followed.
- IndexCache.GetOrBuildBloomIndex: likewise, and the file does not change between its stat and the end of the build.
- IndexCache.FinishLineSave: no other save of the path is under way, which `IndexSaves.OverlapExactly` shows to be needed; the steps of saves that overlap are `OpenSave` and `SaveStep`.
- IndexCache.FinishBloomSave: likewise, by `OverlappingSavesMislead`.
- Bloom.MayContainSearchKeyword: lower-casing and trimming of keywords beyond ASCII are any function that leaves no capital letter.
- RuleEngine.DiagnoseFile: the trimming of lines is any function; the path patterns that select the rules are any predicate.
- Retention.ArchiveStore.CleanNode: tag trimming and case folding are parameters; deleting an archive is one step that succeeds or fails; listing archives and nodes succeeds.
- LogMerge.LogDir.MergeLogFilesIntoOne: deleting an existing file succeeds, the line map is present, and a piece does not change while it is read.
- User, rule and tag administration, quotas and alarms: short map updates.
