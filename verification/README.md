# Verified models of the x-monitor core

x-monitor is a monitoring agent written in C. This project models the hand-written data structures and
algorithms at its core in Dafny and proves what they promise. Each model follows the code it models
branch by branch; where the C code changes memory step by step, the model is a class or a method with
loops, proved against a specification whose own properties are lemmas over every input, every run or
every interleaving.

| file | models |
|---|---|
| `MempoolSpec.dfy`, `Mempool.dfy` | the unit allocator: the machine its clients see, and the linked blocks with the free list inside the free units that refine it |
| `ArlSpec.dfy`, `Arl.dfy` | the adaptive resortable list: the list as a value, and the doubly linked list that refines it |
| `Cgroups.dfy` | the cgroup manager: two threads, two lists, one mutex, every interleaving |
| `Apps.dfy` | processes, applications and the reference counts between them |
| `SimplePattern.dfy`, `PatternList.dfy` | wildcard patterns: parser, greedy matcher, lists of patterns |
| `ProcFile.dfy` | the tokenizer for /proc files |
| `Smaps.dfy` | the block reader of /proc/&lt;pid&gt;/smaps |
| `Md5.dfy` | MD5, against RFC 1321 |
| `Decimal.dfy`, `StrSplit.dfy` | printing and reading decimals; splitting a string |
| `Calendar.dfy` | `mktime64`, against the Gregorian calendar |
| `CStrings.dfy`, `FileRead.dfy` | NUL-terminated strings in buffers; a file whose reads may deliver any amount |
| `Seqs.dfy`, `Integers.dfy`, `Wrappers.dfy` | lists as sequences; machine words and division; optional values |

`dafny verify dfyconfig.toml` checks everything.

Some promises turn out to hold only under a condition; then the exact condition is a theorem:

- Parsed wildcard patterns mean what they say **if and only if** no two adjacent asterisks occur except at
  the very end (`SimplePattern.RightExactlyWhenClean`); `a**b` rejects `ab`
  (`SimplePattern.DoubledStarGoesWrong`).
- `mktime64` is right **if and only if** the (shifted) year times 365 fits in 32 bits
  (`Calendar.MktimeIsRight`).
- The MD5 padding is that of the standard **if and only if** the message is shorter than 2^29 bytes
  (`Md5.PaddingFollowsStandard`).
- The smaps reader stops, without an error, at the first line that does not fit in its buffer with its
  newline; every sum up to there is right (`Smaps.TotalIsLineSum`, `Smaps.AllFit`, `Smaps.LongLineHides`).
- A pass that wants everything puts the keyword list into the order of the source, and makes the next pass
  over the same source take the fast path on every check, **if and only if** every registered keyword has a
  destination or the list has an entry that is not among the lines in front of the last
  (`ArlSpec.SortsExactlyWhenSortable`, `ArlSpec.NextPassIsFast`); `ArlSpec.OneKeywordLosesOrder` is the
  smallest case where it does not.

Where comments in the code and the code differ, the model follows the code: `mktime64` is documented
without a bound on the year; `simple_pattern.c` says it skips asterisks in front, but strips only one;
`get_mss_from_smaps` adds to the sums of the previous call when the file is still open.

Assumptions, all of them visible as `requires` clauses or inputs: clients of the pool give back only
addresses they hold or addresses the pool does not own; the C allocator returns memory apart from the
blocks in use; files hold bytes and, for smaps, no NUL; separators given to the tokenizer are ASCII;
keywords are registered once, and a caller of the list stops when told to.

## Model

| member | source | states |
|---|---|---|
| `MempoolSpec.OwnerOfLive` | utils/mempool.c:199-222 | the range search of free finds, for a live address, the one block and the one unit behind it |
| `MempoolSpec.MallocCorrect` | utils/mempool.c:119-185 | malloc returns an address nobody holds, the head of the first block that has a free unit; it fails exactly when the pool is full and the C allocator refuses; it adds a block in front exactly when no block has a free unit, with the initial number of units for the first block and the growth number for later ones, its first unit handed out and the others waiting in order |
| `MempoolSpec.FreeCorrect` | utils/mempool.c:187-255 | free of a live address makes exactly that address free again; all other blocks stay; a block goes only if none of its units is live and it is not the last; if the block stays partly used the head block has a free unit |
| `MempoolSpec.FreeSettles` | utils/mempool.c:228-249 | what free does to the list: the unit's block goes exactly when no other unit of it is live, it is not the only block and the first block has room; it comes to the front exactly when it stays partly used and the first block is full; otherwise the order is unchanged; no other block changes |
| `MempoolSpec.FreeReleases` | utils/mempool.c:229-243 | the block is off the list in exactly that first case |
| `MempoolSpec.FreedIsNext` | utils/mempool.c:217-222 | a unit that went back is the next one its block hands out |
| `MempoolSpec.FreeFound` | utils/mempool.c:201-222 | an address is reported as foreign exactly when no block owns it, and then nothing changes |
| `MempoolSpec.NullIsForeign` | utils/mempool.c:192-195 | NULL belongs to no block |
| `MempoolSpec.HeldIsLive` | utils/mempool.c:150-166 | the address of a unit is live exactly when the unit is not on its block's free list |
| `MempoolSpec.OneUnit` | utils/mempool.c:157-159 | no two units, of one block or of two, start at the same address |
| `MempoolSpec.MallocInUse` | utils/mempool.c:119-185 | a successful malloc raises the number of units in use by one |
| `MempoolSpec.FreeInUse` | utils/mempool.c:187-255 | free of a live address lowers it by one, also when a block is released |
| `MempoolSpec.StepKeeps` | utils/mempool.c:119-255 | malloc, free and client stores keep the set of held addresses equal to the set of live ones, its size equal to the units in use, and what was stored inside held units |
| `MempoolSpec.EveryRunIsOk` | utils/mempool.c:119-255 | so at every point of every run |
| `MempoolSpec.NoDoubleAllocation` | utils/mempool.c:150-166 | in every run, malloc never returns an address that is still held |
| `MempoolSpec.NeverEmptyAgain` | utils/mempool.c:229-243 | in every run, once the pool has a block it always has one |
| `Mempool.RoundUp` | utils/mempool.c:79-82 | the unit size is the next multiple of the alignment |
| `Mempool.Block.constructor` | utils/mempool.c:32-59 | a new block has unit 0 handed out and the rest linked in order through their first words |
| `Mempool.Block.Take` | utils/mempool.c:155-165 | unlinks the head of the free list stored in the units |
| `Mempool.Block.Put` | utils/mempool.c:215-222 | links a returned unit in front, overwriting only its first word |
| `Mempool.Block.Write` | utils/mempool.c:79-82 | a client may store anything in a unit it holds; the free list is untouched |
| `Mempool.LinksVisitFreeUnits` | utils/mempool.c:45-58 | following the stored links from `free_unit_pos` visits the free units, each once, in `free_unit_count` steps |
| `Mempool.LinksVisitNotHeld` | utils/mempool.c:150-166 | in a pool that serves a program these are exactly the units the program does not hold |
| `Mempool.Pool.Init` | utils/mempool.c:61-94 | a new pool is empty and its unit size is aligned; there is none if a count is not positive or memory runs out |
| `Mempool.Pool.FindRoomy` | utils/mempool.c:150-153 | the first block with a free unit, if any |
| `Mempool.Pool.FindOwner` | utils/mempool.c:199-207 | the first block whose range holds the address, and the block before it |
| `Mempool.Pool.Malloc` | utils/mempool.c:119-185 | the linked pool does what `MempoolSpec.Malloc` says and keeps its links, counts and free lists in order; a block that joins is new memory |
| `Mempool.Pool.Settle` | utils/mempool.c:228-249 | after a unit went back: release the block, move it to the front, or leave it |
| `Mempool.Pool.Free` | utils/mempool.c:187-255 | the linked pool does what `MempoolSpec.Free` says, with the same result code; no word of any other unit changes |
| `Mempool.Pool.Write` | utils/mempool.c:79-82 | client writes leave the whole pool as it was |
| `Mempool.Pool.ServeOne` | utils/mempool.c:119-255 | one malloc, free or client store on the heap is one step of the program's session, and what the program stored in units it holds stays there |
| `Mempool.Pool.Serve` | utils/mempool.c:119-255 | so is any sequence of them, with the answers the sessions say |
| `Mempool.Pool.Load` | utils/mempool.c:79-82 | what a program stored in a unit it still holds reads back |
| `Mempool.RunProgram` | utils/mempool.c:61-255 | every run on the heap, from an empty pool on, keeps the books and the stored data, and leaves the stored links of each block visiting exactly the units not held |
| `ArlSpec.ExpectKeeps` | utils/adaptive_resortable_list.c:137-164 | registering keeps the invariant, adds the keyword and loses none |
| `ArlSpec.ExpectPlaces` | utils/adaptive_resortable_list.c:148-157 | a registered keyword goes in front, and the cursor stays on its entry |
| `ArlSpec.SweepKeeps` | utils/adaptive_resortable_list.c:78-119 | the cleaning loop keeps every expected entry, keeps names distinct and never empties a list |
| `ArlSpec.BeginKeeps` | utils/adaptive_resortable_list.c:66-133 | after arl_begin the cursor is on the list, nothing registered is lost, and in the first and every `rechecks`-th pass everything expected is wanted |
| `ArlSpec.BeginLeaves` | utils/adaptive_resortable_list.c:68-120 | arl_begin after a pass that created entries, or on a recheck, leaves exactly the registered and the found entries, none marked found, and wants what is registered on a recheck and else what of it was found; otherwise it leaves list and wanted as they were |
| `ArlSpec.BeginOnEmpty` | utils/adaptive_resortable_list.c:122-127 | an empty list gets the placeholder keyword |
| `ArlSpec.CheckKeeps` | utils/adaptive_resortable_list.h:98-129 | a check of any keyword keeps the invariant (distinct names, `allocated - fred` = length, cursor on the list) and what is registered |
| `ArlSpec.CheckRuns` | utils/adaptive_resortable_list.h:98-129 | a check runs the action registered for its keyword and no other, on every path |
| `ArlSpec.CheckCounts` | utils/adaptive_resortable_list.c:181-185 | `found` is the number of registered keywords met so far |
| `ArlSpec.PassRule` | utils/adaptive_resortable_list.h:117-125 | what every check keeps holds until the pass ends, early or not |
| `ArlSpec.PassIsDictionary` | utils/adaptive_resortable_list.c:166-243 | a pass that wants everything leaves each destination as a dictionary lookup would, whether it stops early or reads everything |
| `ArlSpec.WantedPassIsDictionary` | utils/adaptive_resortable_list.h:112-125 | so does any pass that wants all its source has for the registered keywords |
| `ArlSpec.PassStops` | utils/adaptive_resortable_list.h:117-123 | such a pass ends behind the first line with which all it wants has been met, or at the end of the source |
| `ArlSpec.PassMarks` | utils/adaptive_resortable_list.c:198-210 | a pass marks exactly the keywords it reads and adds exactly them to the list |
| `ArlSpec.NextPassWants` | utils/adaptive_resortable_list.c:75-120 | after a pass that created entries the next one, unless it is a recheck, wants exactly the registered keywords that were read, on a list of exactly what is registered and what was read |
| `ArlSpec.NextPassIsDictionary` | utils/adaptive_resortable_list.c:75-120 | over a source with the same registered keywords that pass leaves each destination as a dictionary lookup would, and ends as soon as all it wants has been met |
| `ArlSpec.CompleteIsRead` | utils/adaptive_resortable_list.h:117-123 | which is behind the last registered keyword of the source, when all of those have destinations |
| `ArlSpec.FullPassIsDictionary` | utils/adaptive_resortable_list.c:66-76 | in every run that is so for the first pass and every `rechecks`-th one |
| `ArlSpec.CheckSorts` | utils/adaptive_resortable_list.c:187-234 | one more check puts one more keyword of the source at its place in the list |
| `ArlSpec.PassSorts` | utils/adaptive_resortable_list.c:187-234 | after such a pass over a sortable list the list begins with the keywords read, in source order, all found |
| `ArlSpec.BeginKeepsOrder` | utils/adaptive_resortable_list.c:78-133 | the cleaning of the next arl_begin leaves that order alone |
| `ArlSpec.PassLoses` | utils/adaptive_resortable_list.c:231-234 | on any other list the cursor wraps before the source ends and a later keyword goes, and stays, in front |
| `ArlSpec.SortsExactlyWhenSortable` | utils/adaptive_resortable_list.c:187-234 | the lines read are at the front of the list, in their order, if and only if every registered keyword has a destination or some entry is not among the lines in front of the last |
| `ArlSpec.NextPassIsFast` | utils/adaptive_resortable_list.h:98-128 | under the same condition, and only then, the next pass over the same source takes the fast path on every check; it relinks nothing and creates nothing |
| `ArlSpec.FullPassSorts` | utils/adaptive_resortable_list.c:66-76 | in every run both hold of the first pass and every `rechecks`-th one |
| `ArlSpec.FastChangesNothing` | utils/adaptive_resortable_list.h:101-126 | a pass on the fast path leaves names, order and the relink and allocation counters alone |
| `ArlSpec.OneKeywordLosesOrder` | utils/adaptive_resortable_list.c:231-234 | the smallest list that loses the order: one keyword without destination and a source of two lines |
| `ArlSpec.CheckNames` | utils/adaptive_resortable_list.h:98-129 | a check adds its keyword to the names on the list and removes none |
| `ArlSpec.CheckPlaces` | utils/adaptive_resortable_list.c:187-234 | wherever the cursor is, a check leaves the other entries as they are and in order and puts its own, marked found, just behind the cursor |
| `ArlSpec.CheckTallies` | utils/adaptive_resortable_list.c:176-208 | a check counts a relinking exactly when it moved its entry and an allocation exactly when it made it |
| `ArlSpec.EveryRunIsOk` | utils/adaptive_resortable_list.c:66-243 | in every run of arl_expect, arl_begin and arl_check the books balance, names are distinct and nothing registered is ever lost |
| `Arl.Base.constructor` | utils/adaptive_resortable_list.c:33-48 | a new list is empty |
| `Arl.Base.Expect` | utils/adaptive_resortable_list.c:137-164 | the linked list refines registration |
| `Arl.Base.Unlink` | utils/adaptive_resortable_list.c:98-104 | unlinking keeps `prev` and `next` consistent and removes exactly that node |
| `Arl.Base.LinkBefore` | utils/adaptive_resortable_list.c:212-223 | linking in front of the cursor keeps `prev` and `next` consistent and inserts exactly there |
| `Arl.Base.Clean` | utils/adaptive_resortable_list.c:78-119 | the cleaning loop over the links computes the sweep and its counts |
| `Arl.Base.Begin` | utils/adaptive_resortable_list.c:66-133 | the linked list refines the beginning of a pass |
| `Arl.Base.CheckFast` | utils/adaptive_resortable_list.h:101-126 | and the fast path |
| `Arl.Base.Relink` | utils/adaptive_resortable_list.c:176-196 | and the move of a known keyword |
| `Arl.Base.Add` | utils/adaptive_resortable_list.c:197-208 | and the creation of a dynamic one |
| `Arl.Base.FindNode` | utils/adaptive_resortable_list.c:171-174 | the search finds the first entry with the name |
| `Arl.Base.Check` | utils/adaptive_resortable_list.h:98-129 | the linked list refines the whole check, with its result; a node that joins is new memory |
| `Arl.Base.Serve` | utils/adaptive_resortable_list.c:66-243 | any sequence of calls takes the linked list through the states of the run, with the answers they say |
| `Arl.RunProgram` | utils/adaptive_resortable_list.c:33-243 | so does every run from a new list on |
| `Cgroups.Find` | plugin_cgroups/cgroups_mgr.c:203-218 | the first object with the id |
| `Cgroups.InvIsSafe` | plugin_cgroups/cgroups_mgr.c:525-557 | under the invariant, both threads touch only allocated objects |
| `Cgroups.UnsetKeeps` | plugin_cgroups/cgroups_mgr.c:225-235 | clearing the flags keeps the invariant, with the collector running beside it |
| `Cgroups.FoundKeeps` | plugin_cgroups/cgroups_mgr.c:354-379 | so does each directory the walk reports |
| `Cgroups.SweepKeeps` | plugin_cgroups/cgroups_mgr.c:240-257 | so does each step of the sweep |
| `Cgroups.CopyKeeps` | plugin_cgroups/cgroups_mgr.c:546-556 | so does each step of rebuilding the collection list |
| `Cgroups.CStepKeeps` | plugin_cgroups/cgroups_mgr.c:619-672 | so does each step of the collector thread, down to freeing everything |
| `Cgroups.NextKeeps` | plugin_cgroups/cgroups_mgr.c:525-672 | every step of either thread keeps the invariant |
| `Cgroups.EveryRunIsSafe` | plugin_cgroups/cgroups_mgr.c:525-672 | in every interleaving every object either thread touches is allocated |
| `Cgroups.CollectorVisitsAllocated` | plugin_cgroups/cgroups_mgr.c:627-642 | in particular each one the collector visits, while it holds the mutex |
| `Cgroups.CollectionReadsAll` | plugin_cgroups/cgroups_mgr.c:631-641 | between taking the mutex for a collection and giving it back the collector reads every object of the list, each once and in order, and the list stays as it was |
| `Cgroups.RunHistory` | plugin_cgroups/cgroups_mgr.c:354-379 | in every run, the ids a round admits are those its walk reports while new, below the cap and accepted by filter and registration |
| `Cgroups.RoundResult` | plugin_cgroups/cgroups_mgr.c:541-556 | after a round the two lists agree and hold, without duplicates, exactly the ids that were listed when it began and reported by one of its actions, and those one of its actions admitted; the count is their number and at most the maximum plus one |
| `Cgroups.RoundsAreRequested` | plugin_cgroups/cgroups_mgr.c:528-541 | in every run there are never more rounds than requests for one |
| `Cgroups.EndIsClean` | plugin_cgroups/cgroups_mgr.c:644-669 | the discovery thread leaves only when told to, and after cgroups_mgr_fini no object is left |
| `Apps.OwnedAdd` | collectors/application/apps_status.c:357-372 | a new entry raises the number of its application's entries by one and no other |
| `Apps.OwnedDrop` | collectors/application/apps_status.c:299-322 | deleting one lowers it by one and no other |
| `Apps.KeepsTargets` | collectors/application/apps_status.c:740-759 | freeing an application without entries leaves no entry pointing to a freed one |
| `Apps.Collector.GetAppStatus` | collectors/application/apps_status.c:112-291 | the application with that name and pid, or a new one; nothing when the name is bound to another pid, memory runs out or its metrics collector cannot be registered; names stay unique |
| `Apps.Collector.Delete` | collectors/application/apps_status.c:299-322 | removes the entry, counts stay exact |
| `Apps.Collector.GetAssoc` | collectors/application/apps_status.c:325-375 | afterwards the pid is bound to the application, unless memory runs out, and then it is bound to none; no other entry changes; counts stay exact |
| `Apps.Collector.BindAll` | collectors/application/apps_status.c:465-468 | each pid that had an entry for the application keeps it; each other one has one afterwards exactly when the pool granted memory for it, and else none; no other entry changes |
| `Apps.AllBoundTwice` | collectors/application/apps_status.c:465-468 | binding some pids and then others is binding all of them |
| `Apps.Collector.Bind` | collectors/application/apps_status.c:433-478 | it succeeds if and only if the application is there, or its name is free and it can be made, and the process has its entry or memory for one; then the process, and under a tree rule every descendant as far as memory is granted, is bound to it and no other entry changes; when it fails no other process is touched |
| `Apps.Collector.MarkAlive` | collectors/application/apps_status.c:645-716 | exactly the entries of live processes are marked |
| `Apps.Collector.DropStale` | collectors/application/apps_status.c:718-733 | exactly the unmarked entries are deleted, counts stay exact |
| `Apps.Collector.DropEmpty` | collectors/application/apps_status.c:738-759 | exactly the applications without entries are freed, in list order; none of the others' entries dangles |
| `Apps.Collector.CollectUsage` | collectors/application/apps_status.c:623-759 | the whole cleanup: what remains are the live entries and the applications they point to |
| `Apps.Collector.FreeAll` | collectors/application/apps_status.c:875-904 | everything is deleted, entries first |
| `Apps.Collector.Evict` | collectors/application/apps_status.c:334-354 | an entry is kept exactly when it points to the application, else deleted |
| `Apps.RunProgram` | collectors/application/apps_status.c:112-759 | in every run of binding and cleanup the counts are exact, names unique, and no entry points to a freed application |
| `SimplePattern.GlobIsMeaning` | utils/simple_pattern.c:92-148 | the two declarative meanings agree: some texts for the asterisks make pattern and string equal if and only if the pattern matches recursively |
| `SimplePattern.GreedyIsEnough` | utils/simple_pattern.c:102-114 | the leftmost occurrence of a literal decides whether any does |
| `SimplePattern.CleanRight` | utils/simple_pattern.c:23-148 | greedy matching of the parsed chain accepts exactly the strings a clean pattern means, under every default mode |
| `SimplePattern.DirtyWrong` | utils/simple_pattern.c:30-32 | every other pattern rejects its own text without asterisks |
| `SimplePattern.RightExactlyWhenClean` | utils/simple_pattern.c:23-148 | the parsed pattern agrees with its meaning on all strings if and only if it is clean |
| `SimplePattern.DoubledStarGoesWrong` | utils/simple_pattern.c:30-59 | `a**b` rejects `ab` |
| `SimplePattern.FindCut` | utils/simple_pattern.c:28-36 | the scanning loops find where the first piece ends |
| `SimplePattern.ParsePattern` | utils/simple_pattern.c:23-73 | the recursive parser, cutting its buffer in place, builds the chain of `Parse` |
| `SimplePattern.Trim` | utils/simple_pattern.c:45-69 | the node of a piece: its literal and its mode |
| `PatternList.CopyWord` | utils/simple_pattern.c:199-216 | unescapes one word into the buffer |
| `PatternList.Create` | utils/simple_pattern.c:150-237 | the list of parsed words of the text |
| `PatternList.Matches` | utils/simple_pattern.c:239-266 | true if and only if the string is not empty and the first pattern that matches it is not negated |
| `PatternList.Decide` | utils/simple_pattern.c:150-266 | a text of clean patterns accepts a string if and only if the first pattern that means it is not negated |
| `PatternList.WordsNonEmpty` | utils/simple_pattern.c:218-220 | empty words are skipped |
| `PatternList.WriteReadsBack` | utils/simple_pattern.c:180-233 | any list of non-empty words, negated or not, each character escaped or not as long as separators and backslashes are, with any separators around and at least one between, reads back as it was |
| `PatternList.PlainReadsBack` | utils/simple_pattern.c:180-233 | text without escapes reads as the words one sees in it |
| `PatternList.DecidePlain` | utils/simple_pattern.c:150-266 | and decides every non-empty string by the first of its words that means it |
| `PatternList.UsualText` | utils/simple_pattern.c:157-175 | an example with the usual separators |
| `ProcFile.ScanIsTable` | utils/procfile.c:122-223 | a scan from any point inside a word computes the plain split of the rest of the text |
| `ProcFile.LinePerNewline` | utils/procfile.c:160-168 | one line per newline and one more, and each line that ends has a word |
| `ProcFile.LinesPartition` | utils/procfile.c:61-84 | the line ranges partition the word array, and each range holds that line's words |
| `ProcFile.LookupReadsTable` | utils/procfile.h:85-101 | `procfile_linewords` and `procfile_lineword` give, for every line and word number, the word of the table, or nothing beyond it |
| `ProcFile.FirstWordLookup` | utils/procfile.h:92-95 | `procfile_line` gives the first word of each line that has one, and otherwise nothing |
| `ProcFile.SetSeparators` | utils/procfile.c:225-258 | the class table: newlines, separators given (or the usual ones) or not printable, words |
| `ProcFile.CharacterClasses` | utils/procfile.c:225-257 | which characters end lines, separate and make words |
| `ProcFile.SmallTable` | utils/procfile.c:122-223 | the table of a small text: a separator in front of a newline leaves an empty last word |
| `ProcFile.ParsedAtEnd` | utils/procfile.c:214-222 | how a text ends; in a full buffer the last word loses its last byte |
| `ProcFile.File.constructor` | utils/procfile.c:304-327 | the first buffer and the class table |
| `ProcFile.File.AddLine` | utils/procfile.c:61-84 | a new empty line behind the words so far, with room for it |
| `ProcFile.File.EndWord` | utils/procfile.c:139-149 | terminates a word in place without disturbing any word before it |
| `ProcFile.File.Parse` | utils/procfile.c:122-223 | the in-place parser leaves tables that describe the plain split, every word readable back from the buffer; only when the text fills the buffer the last byte is lost |
| `ProcFile.File.Fill` | utils/procfile.c:260-286 | whatever the reads deliver, the buffer ends up holding the whole file with room to spare |
| `ProcFile.File.ReadAll` | utils/procfile.c:260-298 | so the tables describe the plain split of the whole file; it fails if and only if one of its reads does |
| `FileRead.File.Read` | utils/procfile.c:278-284 | the read call: any amount, at least one byte unless at the end, or an error |
| `Smaps.RssByLabel` | utils/os.c:336-342 | the check is a test for the label |
| `Smaps.PssByLabel` | utils/os.c:344-361 | the check is a test for one of the four labels |
| `Smaps.UssByLabel` | utils/os.c:363-373 | the check is a test for one of the two labels |
| `Smaps.LabelFeeds` | utils/os.c:493-530 | which label feeds which sum, modulo 2^64; a line without one feeds none |
| `Smaps.GetValue` | utils/os.c:375-389 | the first numeral of the line that is not zero in 64 bits |
| `Smaps.ShownIsRead` | utils/os.c:375-389 | a number shown behind a label without digits is read back |
| `Smaps.TotalIsLineSum` | utils/os.c:466-543 | taking lines off the front adds up the lines in front of the first one that does not fit |
| `Smaps.AllFit` | utils/os.c:482-486 | these are all complete lines exactly when each fits in 4095 bytes with its newline |
| `Smaps.TotalOfFittingFile` | utils/os.c:466-543 | then the sums are the plain per-line sums over all complete lines |
| `Smaps.OneLineFile` | utils/os.c:482-543 | a file of one line with a label adds the number it shows to the sum of that label and nothing else |
| `Smaps.LinesMakeFile` | utils/os.c:489-492 | the complete lines and what is left behind the last newline make up the file |
| `Smaps.LongLineHides` | utils/os.c:482-486 | a line that does not fit hides itself and everything behind it |
| `Smaps.SmapsInfo.ParseLine` | utils/os.c:493-530 | each line adds its value to the first sum whose check it passes |
| `Smaps.SmapsInfo.TakeLines` | utils/os.c:489-538 | the inner loop adds the complete lines of a block and leaves the incomplete one |
| `Smaps.SmapsInfo.ReadBlock` | utils/os.c:482-543 | one read and its lines keep the sums of the whole file in reach, wherever the read ended |
| `Smaps.SmapsInfo.GetMss` | utils/os.c:431-555 | the sums added depend on the file alone and not on how reads split it; it fails if and only if opening or one of its reads fails, and then closes the file |
| `Md5.RegistersGoRound` | utils/md5.c:86-88 | the packed 27, rotated, gives the register order of section 3.4 of RFC 1321 |
| `Md5.WordsInOrder` | utils/md5.c:88-88 | the index coefficients give the word order of section 3.4 |
| `Md5.FChooses` | utils/md5.c:43-56 | bit by bit F is a choice by its first argument |
| `Md5.GChooses` | utils/md5.c:43-56 | G is a choice by its last |
| `Md5.HIsParity` | utils/md5.c:43-56 | H is a parity |
| `Md5.IFlips` | utils/md5.c:43-56 | I flips its second argument |
| `Md5.Rotates` | utils/md5.c:57-59 | the shifts rotate, by each amount that occurs |
| `Md5.BytesMakeNumber` | utils/md5.c:126-127 | a number stored low-order byte first is read back |
| `Md5.LoadMakesNumber` | utils/md5.c:88-88 | four bytes load as the number they make |
| `Md5.InitialBytes` | utils/md5.c:136-142 | the registers start from the bytes of section 3.3 |
| `Md5.Turn` | utils/md5.c:85-90 | one turn of the inner loop is one operation of section 3.4 |
| `Md5.Round` | utils/md5.c:85-90 | the inner loop is a round |
| `Md5.AllRounds` | utils/md5.c:83-91 | the double loop is the four rounds |
| `Md5.Hasher.Transform` | utils/md5.c:76-95 | the transform is the block step of section 3.4 |
| `Md5.Hasher.Blocks` | utils/md5.c:105-110 | the whole blocks are folded into the state |
| `Md5.Hasher.Finish` | utils/md5.c:112-130 | the rest, padded in the buffer, is folded as one block or two |
| `Md5.Hasher.Proc` | utils/md5.c:98-134 | the state is folded over the padded message, with the length taken in 32 bits |
| `Md5.FoldAppend` | utils/md5.c:105-110 | folding blocks can be split anywhere between blocks |
| `Md5.FoldTail` | utils/md5.c:112-130 | the one or two last blocks are those of the padded rest |
| `Md5.PaddingFollowsStandard` | utils/md5.c:126-127 | the padding is that of sections 3.1 and 3.2 if and only if the message is shorter than 2^29 bytes |
| `Md5.Calc` | utils/md5.c:151-156 | the digest is the encoded fold over the message padded with the 32-bit length |
| `Md5.Md5Calc` | utils/md5.c:151-156 | for messages shorter than 2^29 bytes it is the digest of RFC 1321 |
| `Decimal.DigitsRight` | utils/numbers.c:50-53 | `digits10_uint64` is the length of the decimal numeral of every 64-bit value |
| `Decimal.PairIsTwoDigits` | utils/numbers.c:39-48 | the pair table holds the two digits of each number below 100 |
| `Decimal.Fill` | utils/numbers.c:74-86 | the loop fills in the numeral from the back |
| `Decimal.ToString` | utils/numbers.c:72-88 | `uint64_2_str` writes exactly the numeral and nothing behind it |
| `Decimal.FromString` | utils/strings.c:56-64 | `str2uint64_t` reads the leading digits, modulo 2^64 |
| `Decimal.PrintedReadsBack` | utils/strings.c:56-64 | a printed 64-bit value reads back, whatever non-digit follows |
| `Decimal.ZerosInFront` | utils/strings.c:59-62 | zeros in front do not count, and without a digit in front the result is zero |
| `Decimal.NumeralInjective` | utils/numbers.c:72-88 | different values print differently |
| `StrSplit.SplitJoins` | utils/strings.c:275-302 | the pieces rejoin with the delimiter to the input |
| `StrSplit.PiecesAreFree` | utils/strings.c:275-302 | no piece contains the delimiter |
| `StrSplit.CutsAreLeftmost` | utils/strings.c:290-294 | each cut is made at the first delimiter |
| `StrSplit.Count` | utils/strings.c:279-284 | the counting loop counts the pieces |
| `StrSplit.CutAll` | utils/strings.c:288-295 | the cutting loop leaves each piece terminated in the buffer |
| `StrSplit.SplitInPlace` | utils/strings.c:275-302 | the pieces are in the buffer and their number is `nb`; none when memory runs out |
| `Calendar.DaysToYearClosed` | utils/clocks.c:139-140 | the leap-year quotients count the leap days before a year |
| `Calendar.DayNumberCounts` | utils/clocks.c:117-128 | the reference day number is 0 on 1970-01-01 and counts each day of the calendar once |
| `Calendar.CalendarFacts` | utils/clocks.c:117-128 | leap years and the lengths of the months |
| `Calendar.KnownDate` | utils/clocks.c:129-147 | the first of March 2000 |
| `Calendar.MktimeIsRight` | utils/clocks.c:129-147 | `mktime64` is 86400 times the day number plus the time of day if and only if the product of years and days fits in 32 bits |
| `Calendar.MktimeNextDay` | utils/clocks.c:129-147 | the next day, also over the end of a month, year or century, is 86400 seconds later |

## Left out

- Prometheus metrics, logging, configuration, HTTP registration and process spawning: plumbing around libraries.
- The collectors under `collectors/proc` and the cgroup cpu, memory and block-io files: assignments of fields to gauges.
- `utils/base64.c`, `utils/x_ebpf.c`, `utils/backoff_algorithm.c`, `utils/hweight.c`, `utils/signals.c`, `heartbeat_next`: not part of this model.
- Spin locks and process-shared locking of the pool: each operation runs under one lock and is modelled as atomic.
- Block counters and unit sizes of the pool are unbounded; the product of unit size and count is taken to fit in 32 bits.
- `xm_mempool_fini`, `arl_free` and the other destructors, and the NULL-pool checks.
- Mempool.Pool.Free: an address inside a block that is not held, such as a unit freed twice; the code has no check for it, so clients must not do it.
- MempoolSpec.FreeFound: the same addresses.
- Mempool.Pool.Init: a unit size of zero, which would give all units one address.
- Address space of the pool: `Mempool.Block` models a unit as a row of words; its bytes and the casts between pointer types are not modelled.
- ARL: hash values, which only filter before the string comparison; the branch for a missing cursor (utils/adaptive_resortable_list.c:224-229), unreachable after `arl_begin`; several registrations of one keyword; a processor is a function from the value to the number it stores.
- Arl.Base.constructor: zero `rechecks`, by which arl_begin would divide.
- Arl.Base: the eight counters of the list are one record field; the processor is stored with its destination as one action.
- Cgroups: update in place is modelled on values, one statement a step; that `cgroups_mgr_fini` always ends is not claimed, since it signals without the mutex; the walk reports the root as `/`, so the empty id that `__add_cgroup_obj` would turn into `/` does not occur; a collector call after `cgroups_mgr_fini` is excluded.
- Apps: the sums of resource usage (some fields are never reset); failure of `new_process_status` or of the hash table to allocate; matching a command line against rules; application names longer than their 64-byte field.
- SimplePattern: the capture buffer of the matcher.
- PatternList: the linked list of patterns is a sequence; separators are a set, not a table of 256 flags.
- ProcFile: the quote and the open/close classes; reopening, printing and naming files; the line and word arrays are sequences with their capacities.
- Smaps: NUL bytes inside the file; the sums left behind by a call that fails; the choice between `smaps` and `smaps_rollup`; the tag flags, which are cleared after every line.
- Md5: the sine and shift tables are the same constants on the side of the code and of the standard; what is proved of the word operations are the laws of their bits and bytes, and of the whole digest its schedule, padding and folding; the example digests of section A.5 of RFC 1321 are not evaluated.
- Md5: messages of 2^32 bytes or more, whose length the interface cannot express; the host is little-endian.
- StrSplit: an empty delimiter, on which the code does not stop.
- Decimal: the narrower `digits10` variants and the other integer parsers, which repeat the same code.
