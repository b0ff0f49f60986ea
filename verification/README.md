# AFLGo engine: verified models

A Dafny model of the algorithms inside a directed greybox fuzzer: AFL's engine with the AFLGo
distance machinery and the GFuzz state-diversity extension. Running a program is a deterministic
function from a buffer to a trace or verdict; everything around it is modelled as the code has it,
with its branches, in-place updates, shortcuts and sizes, and proved against a plain reference.

Main results:

- **Test case minimizer** (`MinimizerStages`, `Rejections`, `Minimizer`, `Tmin`). For every oracle the goto-structured
  minimizer ends with an accepted input that embeds in the original and from which no block or byte can be deleted;
  whatever a stage left was rejected, on a buffer that is written out. The clever skip of equal blocks changes nothing.
- **Corpus** (`Corpus`, `PackedBits`, `Trimming`, `QueueLinks`). Across every sequence of adding, calibrating,
  trimming, culling and fuzzing: slot holders are best, traces are counted and freed correctly,
  the favored entries cover everything, and all counters are what they say.
- **Fork server** (`ForkServer`, `Loops`). In every interleaving of fuzzer, server, child, timer and
  signal delivery: only live, stopped, uncondemned children are resumed, every request is answered
  once, no round hangs, and the crashes reported are exactly those that children made. Without the flag of the
  last timeout a false crash is reported; a run shows it.
- **Coverage maps** (`Coverage`, `CoverageRuns`, `WordCounts`, `Classify`). The word-level scans,
  counters and table lookups refine bytewise definitions; discoveries over a run are bounded.
- **Hash set** (`Probing`, `HashSets`). Probing always ends; which histories are exact, and which not.
- **Dictionary** (`Dictionary`, `DictionaryGrammar`, `DictionaryFile`). What the printer writes the reader reads back;
  and what it makes of any line, by a grammar.
- **Mutation** (`Flips`, `WalkingFlips`, `WordFlips`, `WordArith`, `Words`, `Deterministic`, `Stages`, `Effector`,
  `Extras`, `AutoExtras`, `Interesting`, `Havoc`, `HavocStage`). The byte stages try each candidate exactly once;
  which candidates of the arithmetic on words are lost, and no others; dictionary stages run one token at a time and
  restore the input; stacked random changes stay in bounds, and each is one of its kind.
- **Allocator, distances, schedule, diversity** (`Dislocator`, `Graphs`, `Distances`, `Annealing`,
  `GFuzz`). Guard pages in every history; two distance calculators that agree; bounds and order of
  the power schedule; a ring history and clamped weights.

`Bytes`, `Bits`, `BitCounts`, `Bitmap`, `Counting`, `Constants` and `Options` hold what these share.

How it is written: an algorithm that changes things in place is a method or a class whose contract
equates the new state with a specification function; the theorems are lemmas about that function or
the invariant. A method body of the repository that is one long loop is split into methods here, one
for each loop body. Predicates of the form `forall k | See...(k) :: ...` only keep a definition
folded until a proof names it. Sizes that are compile-time constants in C are parameters or constants
here (map size, history length, list bounds, largest adjustment).

Where code and documentation differ, the code is modelled:

- The hash set's add can store a value twice after a removal (`Probing.SecondCopy`).
- Removing the tombstone's value leaves the hash set's counters wrong (`HashSets.HashSet.Remove`).
- The bit-flip filter drops word changes that no flip makes: four of them for two bytes
  (`WordFlips.LostWords16`), more for four (`WordFlips.LostWords32`); these and what the effector map
  leaves out are all that the arithmetic on words loses (`WordArith.Arith16Exact`). With arithmetic off the last
  filter still drops what arithmetic would have made (`Deterministic.LostWithoutArith`).
- Dictionary labels may hold underscores, not the dashes the comment mentions (`Dictionary.NamedLine`).
- Different strings of odd length can count as equal (`GFuzz.StringsTellApart`).
- States seen before can join the history again (`GFuzz.JoinsExactly`, `GFuzz.ObserveTwice`).
- A splice cut at the first difference is the second input itself (`HavocStage.SpliceIsNew`).
- A score below 32 can be truncated to zero (`Annealing.ScoreVanishes`); with no score a stage is
  doubled by every find until its length no longer fits in 32 bits (`HavocStage.NoScoreDoubles`,
  `HavocStage.TooLongEnds`).
- A child of persistent mode that asks again after it was told to leave is let in past the limit
  (`Loops.AskingAgain`).
- The links by hundreds lead to the entry before the one wanted (`QueueLinks.NewestIsMissed`).
- One built-in value is not recognised in one byte order (`Interesting.OneMissed`); it does not show, as
  tokens of less than three bytes are not collected.

`dafny verify dfyconfig.toml` checks the whole project.

## Model

| member | source | states |
|---|---|---|
| Minimizer.MinimizedCorrect | afl-2.57b/afl-tmin.c:428-649 | For every oracle: the result embeds in the input as a subsequence with some bytes turned to "0"; it is accepted if the input was, and also whenever anything changed; it weighs no more; no aligned block of any size from a sixteenth of it down to one byte can be deleted from it and still be accepted. It is reached over stage 0 and passes, the first one after which no such block is left being the last, in which every block of "0"s, every symbol and every byte became "0" exactly if that was accepted on the buffer of that moment, and every byte left by deletion was rejected by the last sweep |
| Minimizer.PassesCorrect | afl-2.57b/afl-tmin.c:484-647 | The pass loop ends (each changed pass lowers length plus non-"0" bytes) and what it ends with is block-minimal, for every oracle |
| Minimizer.PassSimplifies | afl-2.57b/afl-tmin.c:484-647 | A whole pass only cuts bytes out and turns bytes to "0", keeps the verdict, and strictly lowers the weight unless it changes nothing |
| Minimizer.UnchangedPass | afl-2.57b/afl-tmin.c:484-647 | A pass that leaves its input as it was left it so at every stage: no stage can undo another, so the change flag is exact |
| MinimizerStages.SkipStep | afl-2.57b/afl-tmin.c:512-526 | Skipping a block equal to its rejected predecessor gives exactly what trying it would have given, for every block size and chain of skips |
| Minimizer.BlockMinimalExactly | afl-2.57b/afl-tmin.c:493-555 | The deletion stage leaves a buffer as it is exactly if every aligned block was rejected, of the sizes from one to the least power of two that is not below a sixteenth of it |
| Rejections.SweepRejects | afl-2.57b/afl-tmin.c:507-548 | Every block that a deletion sweep leaves lay somewhere in the buffer before, and was rejected with the blocks before it as they are left and those behind it as they were |
| Rejections.CharsAreTried | afl-2.57b/afl-tmin.c:617-640 | After the character stage each byte is "0" exactly if that was accepted, with the bytes before it as they are left and those behind it as they were |
| Rejections.SymbolsAreTried | afl-2.57b/afl-tmin.c:576-605 | After the symbol stage all bytes of a symbol are "0" exactly if that was accepted, with the symbols below it as they are left and those above it as they were |
| Rejections.BlocksAreTried | afl-2.57b/afl-tmin.c:443-477 | After stage 0 each block is all "0"s exactly if that was accepted, with the blocks before it as they are left and those behind it as they were |
| Minimizer.BlockMinimalIsOneMinimal | afl-2.57b/afl-tmin.c:550-562 | What no halving stage can shrink has no removable byte |
| Minimizer.DeletedSimplifies | afl-2.57b/afl-tmin.c:493-555 | Deletion with halving block sizes keeps the verdict and embeds its result |
| Tmin.NextPowerOfTwo | afl-2.57b/afl-tmin.c:417-423 | The result is a power of two, no power of two that is large enough is smaller, and it is less than twice an argument above one |
| Tmin.TestCase.NormalizeBlocks | afl-2.57b/afl-tmin.c:443-477 | In place on the buffers, block normalization computes the reference stage |
| Tmin.TestCase.SameBlocks | afl-2.57b/afl-tmin.c:520-521 | The memory comparison of the skip test reads only inside the buffer and decides equality of the two blocks |
| Tmin.TestCase.DeleteBlocks | afl-2.57b/afl-tmin.c:507-548 | The deletion loop with its skip test computes the reference without one, and reports exactly whether the input changed |
| Tmin.TestCase.DeleteAll | afl-2.57b/afl-tmin.c:493-555 | All block sizes in turn compute the reference stage |
| Tmin.TestCase.RecodeSymbols | afl-2.57b/afl-tmin.c:568-605 | Symbol by symbol through the counts taken at the start, the in-place stage computes the reference |
| Tmin.TestCase.ZeroChars | afl-2.57b/afl-tmin.c:617-640 | The shared scratch buffer stays equal to the input between steps, so the in-place stage computes the reference |
| Tmin.TestCase.Minimize | afl-2.57b/afl-tmin.c:428-649 | The whole in-place minimizer, with its early exit, leaves exactly the reference result in the buffer |
| Tmin.Target.Run | afl-2.57b/afl-tmin.c:266-412 | After the first run, a run keeps a candidate exactly if it behaves as the first one did: no timeout, a crash if and only if that crashed, and the same classified, masked trace except for crashes outside exact mode |
| Tmin.VerdictCarriesOver | afl-2.57b/afl-tmin.c:349-412 | With the verdict of the first run as oracle, the minimized input behaves as the original and no byte can go without changing that |
| Tmin.BehaviourExactly | afl-2.57b/afl-tmin.c:335-412 | A candidate behaves like the original exactly if it does not time out, dies (by a signal, the exit code 86, or if so asked any but zero) if and only if that did, and, unless both die outside exact mode, each byte of its trace is zero or masked where the other is, and otherwise of the same class, which edge mode does not look at |
| Tmin.BlankExactly | afl-2.57b/afl-tmin.c:152-161 | The test for instrumentation sees nothing exactly if each byte of the trace is zero or masked |
| Tmin.MinimizeFile | afl-2.57b/afl-tmin.c:1134-1159 | From file to file: refused exactly for a timeout or an empty trace; otherwise an embedded, equally behaving, irreducible input is written |
| Corpus.Corpus.UpdateBitmapScore | afl-2.57b/afl-fuzz.c:1323-1365 | Scoring an entry hands it exactly the slots of bytes hit that were empty or whose holder has a run time times length no less than its own (its own last slots included) and re-establishes that holders are best, reference counts are slots held, and packed traces are there exactly while needed |
| Corpus.Corpus.TakeSlot | afl-2.57b/afl-fuzz.c:1339-1359 | Passing a slot on keeps every reference count equal to the number of slots held, also when the old and the new holder are the same |
| Corpus.Corpus.HolderIsBest | afl-2.57b/afl-fuzz.c:1314-1365 | In every state between steps, no scored entry that hits a tuple has a smaller product of run time and length than the holder of its slot, who counts exactly its slots and whose packed trace marks the tuple |
| Corpus.Corpus.FavoredCoverAll | afl-2.57b/afl-fuzz.c:1368-1424 | In every state with no slot changed since culling, each tuple hit by any scored entry is hit by a favored one |
| Corpus.Corpus.CullQueue | afl-2.57b/afl-fuzz.c:1374-1424 | Culling marks exactly the greedy choice over the slots, flags all others redundant, and makes both favored counters true |
| Corpus.GreedyExactly | afl-2.57b/afl-fuzz.c:1394-1416 | The greedy choice without the walk: a slot is chosen exactly if it has a holder and no holder of a chosen slot below it hits its tuple, and the favored entries are the holders of the chosen slots |
| Corpus.Corpus.Calibrate | afl-2.57b/afl-fuzz.c:2769-2787 | A calibration, whether it succeeds or is aborted, keeps the invariant of the corpus and scores the entry exactly when it succeeds |
| Corpus.Corpus.AddToQueue | afl-2.57b/afl-fuzz.c:842-854 | Adding an entry keeps the invariant of the corpus, puts it one deeper than its origin at the end of the queue, keeps the greatest depth, and counts it as pending |
| Corpus.Corpus.TrimCase | afl-2.57b/afl-fuzz.c:4636-4753 | Trimming keeps the invariant of the corpus although the entry gets smaller before it is scored again, and leaves the reference trim in the buffer |
| Corpus.Corpus.FinishFuzzing | afl-2.57b/afl-fuzz.c:6854-6862 | An entry is counted as fuzzed once, so that both pending counters stay true |
| QueueLinks.Queue.Append | afl-2.57b/afl-fuzz.c:853-863 | The links by hundreds lead from the first entry to the 100th and from there to each hundredth one, for every length of the queue |
| QueueLinks.Queue.Seek | afl-2.57b/afl-fuzz.c:6793-6794 | Seeking never leaves the queue; below 100 it ends at the entry wanted, from 100 on at the one before |
| QueueLinks.Queue.Other | afl-2.57b/afl-fuzz.c:6786-6803 | The partner for a splice is the first entry from there on that is long enough and not the current one, or none |
| QueueLinks.NewestIsMissed | afl-2.57b/afl-fuzz.c:6788-6794 | An entry is found as itself exactly if it is one of the first 100; in a longer queue the 100th is found twice and exactly the newest never |
| PackedBits.MinimizeBits | afl-2.57b/afl-fuzz.c:1299-1310 | The packed trace marks exactly the bytes hit |
| PackedBits.RemoveBits | afl-2.57b/afl-fuzz.c:1404-1408 | Clearing with a packed trace removes exactly its tuples from those still to be covered |
| Trimming.TrimmedCorrect | afl-2.57b/afl-fuzz.c:4636-4725 | A trimmed entry is the old one with pieces cut out: the bytes left are unchanged and in order, the first four stay; if anything was cut it is shorter and follows the same path. Nothing is cut exactly if no chunk but the first could be, of any size from an eighth of the entry down to a 1024th or four bytes; and every chunk left but the first was rejected in the last sweep, whose chunk size is the last of these |
| Trimming.Trim | afl-2.57b/afl-fuzz.c:4650-4725 | The in-place sweeps with the shrinking length bound compute the reference trim |
| ForkServer.StepKeepsInv | instrument/aflgo-runtime.o.c:126-188 | Every step of fuzzer, server, child, timer and signal delivery, in any order, keeps the protocol invariant |
| ForkServer.NobodyGivesUp | instrument/aflgo-runtime.o.c:126-188 | In no run does a wait of the server fail, the timer hit the server, or the fuzzer read a status as a process number or the reverse |
| ForkServer.ResumesOnlyStoppedChildren | instrument/aflgo-runtime.o.c:139-169 | In every run the server resumes only a child that is alive, stopped and not condemned, and forks only when no child is left |
| ForkServer.OneChildAtATime | instrument/aflgo-runtime.o.c:144-159 | There is never more than one uncollected child |
| ForkServer.WrittenOffChildIsDoomed | instrument/aflgo-runtime.o.c:139-142 | The wait for a written-off child is for one that was killed, so it cannot block for good |
| ForkServer.OneAnswerPerRequest | afl-2.57b/afl-fuzz.c:2464-2506 | Each request is answered by exactly one process number and one status of that same process, and earns one verdict |
| ForkServer.LeftOverChild | afl-2.57b/afl-fuzz.c:2508-2535 | Between runs a child is left exactly if it reported a stop, and it is condemned exactly if the flag sent next says so |
| ForkServer.OwnKillIsTimeout | afl-2.57b/afl-fuzz.c:2539-2547 | A child ended by the fuzzer is judged a timeout, and a run is judged so exactly if it ended by SIGKILL after the timer went off in it |
| ForkServer.VerdictsFit | afl-2.57b/afl-fuzz.c:2539-2555 | Over every run, the i-th verdict is about the i-th status read: it is neither crash nor timeout exactly if that is an exit other than with the sanitizer code, or a stop; every signal but SIGKILL is a crash; only SIGKILL may be a timeout |
| ForkServer.OneVerdictPerHalt | afl-2.57b/afl-fuzz.c:2464-2506 | Over every run, no verdict is given before a running child has ended, been killed or stopped, and between two rounds there are exactly as many verdicts as such events |
| ForkServer.LateTimerIsHarmless | afl-2.57b/afl-fuzz.c:7036-7049 | A timer that goes off after the child is known to have ended kills nothing and makes no timeout; with a stopped child it does |
| ForkServer.CrashesAreReal | afl-2.57b/afl-fuzz.c:2539-2555 | Over every run: as long as no child ends by a signal of its own or the sanitizer exit code, nothing is judged a crash, however the kills land |
| ForkServer.CrashesAreCounted | afl-2.57b/afl-fuzz.c:2539-2555 | Over every run, whatever the timer does: each child that ends itself by a signal other than SIGKILL or by the sanitizer exit code earns a crash verdict, one of which may still be on its way; if no child sends itself SIGKILL there are no others |
| ForkServer.RoundsAreShort | afl-2.57b/afl-fuzz.c:2464-2535 | Between two requests at most 18 steps are taken by anyone but the child, whatever the child does |
| ForkServer.NextStep | afl-2.57b/afl-fuzz.c:2464-2535 | While a round is open, a step that is not the child's can always be taken |
| ForkServer.RoundCanEnd | afl-2.57b/afl-fuzz.c:2464-2535 | From every reachable moment the round can be brought to its verdict without the child |
| ForkServer.StaleKillLooksLikeCrash | afl-2.57b/afl-fuzz.c:2464-2535 | If the flag of the previous timeout were not sent, a run with no crash at all would end in a crash verdict |
| ForkServer.LimitIfNotAskedAgain | instrument/aflgo-runtime.o.c:193-240 | In every run a child has been let into its loop no more often than the limit says if and only if it never asked again after it was told to leave; one told to leave has then served exactly that many |
| ForkServer.SecondTimeIn | instrument/aflgo-runtime.o.c:193-240 | A run in which a child with a limit of one is let in a second time |
| Loops.Finished | instrument/aflgo-runtime.o.c:193-240 | A child that asks until it is told to leave serves exactly the limit in persistent mode (2^32 for zero, by wrap-around) and exactly one input otherwise |
| Loops.AskingAgain | instrument/aflgo-runtime.o.c:219-228 | Asking once more, it is let in past the limit and stops itself: the counter wraps around |
| Loops.PastTheLimit | instrument/aflgo-runtime.o.c:193-240 | Three calls with a limit of one let the child in twice |
| Loops.PersistentLoop.Again | instrument/aflgo-runtime.o.c:193-240 | One call, at any time, lets the child on exactly while the counter does not reach zero, and stops it first on every pass but the first |
| Coverage.Maps.HasNewBits | afl-2.57b/afl-fuzz.c:937-1032 | On 64-bit words with its shortcuts, the scan returns the bytewise novelty and clears exactly the bits hit; the average distance times the count behind the trace is the sum there, or it is -1 without a count |
| CoverageRuns.VirginIsStartLessUnion | afl-2.57b/afl-fuzz.c:1019-1019 | After any sequence of traces the virgin map is the start map without the union of the traces |
| CoverageRuns.SeenIsNotNew | afl-2.57b/afl-fuzz.c:931-932 | A trace seen before is never new again, whatever came in between |
| CoverageRuns.NoveltyCounts | afl-2.57b/afl-fuzz.c:993-1032 | A non-zero result strictly lowers the count of virgin bits; a result of 2 occurs exactly when the count of touched bytes grows |
| CoverageRuns.FindsBounded | afl-2.57b/afl-fuzz.c:3255-3313 | The inputs kept over any run, those with a novelty other than zero, never outnumber the bits cleared, nor those with new tuples the bytes that were 255 |
| WordCounts.CountBitsInWords | afl-2.57b/afl-fuzz.c:1038-1064 | The shift-and-mask count with its shortcut is the sum of the set bits of all bytes |
| WordCounts.CountWord | afl-2.57b/afl-fuzz.c:1056-1060 | The three masked sums and the product count the bits of any word, without a carry between fields |
| WordCounts.CountBytes | afl-2.57b/afl-fuzz.c:1073-1092 | The masked tests per word count exactly the non-zero bytes |
| WordCounts.CountNon255Bytes | afl-2.57b/afl-fuzz.c:1099-1122 | The masked tests per word count exactly the bytes that are not 255 |
| Classify.InitCountClass16 | afl-2.57b/afl-fuzz.c:1218-1230 | The table of pairs classifies both bytes of every 16-bit value |
| Classify.ClassifyCounts | afl-2.57b/afl-fuzz.c:1233-1256 | By table and with zero words skipped, classification equals the bytewise one on every map |
| Classify.ClassifyNaively | afl-2.57b/afl-tmin.c:108-128 | The minimizer's byte loop computes the same classification |
| Classify.ClassesExactly | afl-2.57b/afl-fuzz.c:1201-1213 | Two hit counts share a class exactly if none of 1, 2, 3, 4, 8, 16, 32 and 128 lies between them; greater counts have greater classes; each class but that of zero is a single bit |
| Classify.TracesAlike | afl-2.57b/afl-fuzz.c:1233-1256 | Two traces are classified alike exactly if at no place one of these bounds lies between their counts |
| HashSets.HashSet.IsMember | instrument/aflgo-runtime.o.c:438-451 | Lookup terminates and is exact for every storable value; for the tombstone value it says whether a search meets one |
| HashSets.HashSet.Add | instrument/aflgo-runtime.o.c:413-418 | Whatever the history, adding adds the value to the set and may rehash; without removals before, the return value says exactly whether it was new and the counters stay exact |
| HashSets.HashSet.Remove | instrument/aflgo-runtime.o.c:420-436 | Removal erases the first copy met and no other value; given exact counters, it keeps them exact if and only if it is not given the tombstone value while a search for that value would succeed |
| HashSets.RemovedTombstone | instrument/aflgo-runtime.o.c:420-436 | From an empty set, adding 9, removing 9 and removing 1 leaves an empty set that counts minus one items |
| HashSets.HashSet.Rehash | instrument/aflgo-runtime.o.c:396-409 | Doubling keeps the set, drops tombstones and second copies, and brings the load below the limit |
| HashSets.HashSet.NumItems | instrument/aflgo-runtime.o.c:350-353 | Without second copies the item count is the size of the set |
| Probing.SlotsDiffer | instrument/aflgo-runtime.o.c:379-379 | Stepping by the odd stride through a power-of-two table visits no slot twice within one turn |
| Probing.PathIsShort | instrument/aflgo-runtime.o.c:372-381 | A probe ends within as many steps as there are used slots |
| Probing.MaskWraps | instrument/aflgo-runtime.o.c:372-379 | The mask keeps the remainder modulo the capacity |
| Probing.FoundIffContained | instrument/aflgo-runtime.o.c:438-451 | In every table kept by these operations a search finds exactly the values stored |
| Probing.FoundEarlyIffNoTombstoneBefore | instrument/aflgo-runtime.o.c:374-381 | An insertion overlooks a stored value exactly if a tombstone lies before its first copy |
| Probing.AddsToSet | instrument/aflgo-runtime.o.c:363-388 | Without tombstones insertion is set insertion with an exact answer, and makes no second copy |
| Probing.RemovesShrinks | instrument/aflgo-runtime.o.c:420-436 | Removal never changes membership of another value, and without second copies it is set removal |
| Probing.SecondCopy | instrument/aflgo-runtime.o.c:374-387 | Values 2 and 10: after removing 2, adding 10 again is reported as new, and removing 10 then leaves 10 a member |
| Dictionary.RoundTrip | afl-2.57b/libtokencap/libtokencap.so.c:106-142 | For every token of 3 to 32 bytes, reading the printed line gives back the token exactly unless it is text with a zero; a text starting with a zero is refused as empty; none is skipped |
| Dictionary.ParseInvertsLine | afl-2.57b/afl-fuzz.c:1636-1732 | Reading inverts printing for every text of up to 128 bytes and every level |
| Dictionary.EscapedIsPrintable | afl-2.57b/libtokencap/libtokencap.so.c:115-136 | A printed body has neither quotes nor bytes outside the printable range |
| Dictionary.UnescapesEscaped | afl-2.57b/afl-fuzz.c:1691-1732 | Undoing the escapes inverts making them, in front of any rest of a line |
| Dictionary.KeywordSize | afl-2.57b/afl-fuzz.c:1681-1738 | Every keyword that loads has 1 to 128 bytes |
| Dictionary.NamedLine | afl-2.57b/afl-fuzz.c:1658-1684 | A printed text behind an unbroken label and an equals sign is read back exactly if each byte of the label is alphanumeric or an underscore; otherwise the line is malformed |
| DictionaryGrammar.ReadsExactly | afl-2.57b/afl-fuzz.c:1691-1732 | Any text between the quotes splits into pieces (a printable byte, a backslash before a backslash or quote, or two hexadecimal digits in either case) and a rest; it is a keyword exactly if there is no rest, and then the bytes the pieces mean; otherwise the rest begins with an unprintable byte or a bad escape and is refused as that |
| DictionaryGrammar.ReadsPieces | afl-2.57b/afl-fuzz.c:1691-1732 | However a text is written in pieces, it reads as the bytes they mean, in front of any rest |
| DictionaryGrammar.LineIsRead | afl-2.57b/afl-fuzz.c:1640-1738 | A line with blanks around it, a label, a level and any gap before the keyword is skipped exactly if its level is above the one asked for; otherwise it must have 1 to 128 bytes and is read as the keyword its pieces mean |
| DictionaryGrammar.ReadsOutside | afl-2.57b/afl-fuzz.c:1636-1656 | Empty lines and comments are skipped, and any other line must end in a quote |
| DictionaryGrammar.PrintedAs | afl-2.57b/libtokencap/libtokencap.so.c:113-134 | A byte is printed as itself exactly if it is 32 to 126 and neither quote nor backslash; otherwise as two lower-case hexadecimal digits |
| DictionaryFile.Dump | afl-2.57b/libtokencap/libtokencap.so.c:106-142 | The printer, on its fixed buffer, writes the line of the text and nothing for lengths out of range; at most four characters a byte |
| DictionaryFile.ParseLine | afl-2.57b/afl-fuzz.c:1624-1738 | The in-place reader gives the reference result on every buffer, malformed ones included, without leaving it |
| DictionaryFile.Unescape | afl-2.57b/afl-fuzz.c:1685-1732 | The copy loop never writes more than the text is long and stops at the first malformed escape |
| DictionaryFile.LoadExtrasFile | afl-2.57b/afl-fuzz.c:1617-1749 | A file loads as its keywords in order with their length range, or fails at its first malformed line |
| DictionaryFile.LoadExactly | afl-2.57b/afl-fuzz.c:1617-1749 | A file fails at its first malformed line, counted from 1, with the problem of that line; otherwise it loads the keywords of its lines in their order, and all other lines are skipped ones |
| DictionaryFile.LoadsWhatWasDumped | afl-2.57b/libtokencap/libtokencap.so.c:138-140 | A file of printed tokens loads as exactly these tokens in order |
| DictionaryFile.LoadSpans | afl-2.57b/afl-fuzz.c:1740-1741 | The length range spans all keywords loaded, and its ends are lengths of keywords or those it started with |
| Deterministic.EachCandidateOnce | afl-2.57b/afl-fuzz.c:5353-5980 | With arithmetic on: for every buffer, offset and value, the six byte-sized stages together run that one-byte change exactly once if it is a flip within the byte or, where the effector map allows, within reach of the arithmetic or interesting; otherwise never |
| Deterministic.LostWithoutArith | afl-2.57b/afl-fuzz.c:5947-5968 | With arithmetic off: an interesting value is never run exactly if it is within reach of the arithmetic and no flip |
| Deterministic.AflTriesEachOnce | afl-2.57b/afl-fuzz.c:5353-5980 | With the sizes compiled in: each change of one byte is run exactly once if it is a flip within the byte or, where the effector map allows, adds or subtracts 1 to 35 with wrap-around or is one of the nine interesting bytes; otherwise never |
| Deterministic.LostSixteen | afl-2.57b/afl-fuzz.c:5947-5968 | With arithmetic off, 16 is never tried in the place of the byte 5; with arithmetic on it is |
| WordFlips.WordFilter | afl-2.57b/afl-fuzz.c:4995-5027 | For every buffer, offset and new bytes whose change the filter takes for a flip: some flip of 1, 2, 4, 8, 16 or 32 bits makes the change exactly if it is a run inside a byte, or a run of whole bytes whose flip was not left out |
| WordFlips.LostWords | afl-2.57b/afl-fuzz.c:4995-5027 | A change of any number of bytes is dropped although no flip makes it exactly if it is, at some byte, 0x180, 0x1e0, 0x3c0 or 0x780, or a run of two or four bytes whose flip was left out |
| WordFlips.LostWords16 | afl-2.57b/afl-fuzz.c:5753-5830 | Where a two-byte word is worked on, exactly the changes 0x180, 0x1e0, 0x3c0 and 0x780 are dropped although no flip makes them |
| WordFlips.LostWords32 | afl-2.57b/afl-fuzz.c:5847-5925 | In a four-byte word it is these four changes at each of three places, and the flips of two bytes within it that were left out |
| WordFlips.WordFilterLoses | afl-2.57b/afl-fuzz.c:5003-5027 | Adding 32 to the word 0x00E0 is dropped, and is in none of the runs of all the flips |
| WordFlips.WalkBlocks | afl-2.57b/afl-fuzz.c:5599-5668 | The flips of two and of four bytes run exactly the described buffers, those with no effective byte left out, and restore the input |
| WordArith.ArithWords | afl-2.57b/afl-fuzz.c:5743-5930 | The arithmetic on words of two and of four bytes runs exactly the described buffers, by its carry test, the filter and the effector map, and restores the input |
| WordArith.Arith16Exact | afl-2.57b/afl-fuzz.c:5753-5838 | Each two-byte candidate, in either byte order, is run by this or an earlier stage exactly unless its change is one of 0x180, 0x1e0, 0x3c0 and 0x780; or it has no carry, is no flip, and the effector map left out the arithmetic on its lowest byte |
| WordArith.Arith32Exact | afl-2.57b/afl-fuzz.c:5847-5930 | Each four-byte candidate is run by this or an earlier stage exactly if it goes beyond its lower half, or the stages before run it as the two-byte candidate of that half, which it then is |
| WordArith.LostByFilter | afl-2.57b/afl-fuzz.c:5753-5838 | Adding 32 to the word 0x00E0 is tried by none of these stages |
| WordArith.LostByMap | afl-2.57b/afl-fuzz.c:5753-5838 | Adding 5 to a zero byte is not, where only the byte behind it lies in an effective block |
| Effector.FlipAndArithStages | afl-2.57b/afl-fuzz.c:5353-5932 | All flips and all arithmetic in their order make exactly the runs these statements are about |
| Effector.FlipStages | afl-2.57b/afl-fuzz.c:5353-5672 | All flips in their order make exactly the runs the filter is measured against |
| Flips.CouldBeBitflip | afl-2.57b/afl-fuzz.c:5003-5027 | The shift loop decides whether the change is a run of 1, 2 or 4 bits anywhere or of 8, 16 or 32 bits at a byte |
| Flips.ByteFlips | afl-2.57b/afl-fuzz.c:5003-5027 | Within a byte the filter is exact: no change, or a flip that stays in the byte |
| WalkingFlips.HitsExactly | afl-2.57b/afl-fuzz.c:5347-5351 | A walking flip makes a given one-byte change exactly if it stays within that byte and is that change; one that crosses changes both bytes |
| WalkingFlips.FlipStageCount | afl-2.57b/afl-fuzz.c:5353-5505 | A whole walk makes each change within a byte exactly once |
| WalkingFlips.FlipTwice | afl-2.57b/afl-fuzz.c:5347-5376 | Flipping the same bits again restores the buffer |
| Stages.WalkBits | afl-2.57b/afl-fuzz.c:5353-5505 | The walking-flip loops run exactly the described buffers and restore the input |
| Stages.Arith8 | afl-2.57b/afl-fuzz.c:5680-5742 | The filtered arithmetic runs exactly the described buffers and restores the input |
| Stages.Interest8 | afl-2.57b/afl-fuzz.c:5935-5980 | The filtered interesting values run exactly the described buffers and restore the input |
| Stages.CouldBeArith8 | afl-2.57b/afl-fuzz.c:5033-5060 | For one byte the filter says whether the values are equal or within reach of each other, with wrap-around |
| Effector.Flip8 | afl-2.57b/afl-fuzz.c:5507-5590 | The byte flips leave exactly the effector map of the paths they changed, first and last block included, or all of it when dense |
| Effector.NothingEffectiveSkipped | afl-2.57b/afl-fuzz.c:5552-5569 | A byte is left out later only if no flip in its block changed the path |
| Effector.SkippedExactly | afl-2.57b/afl-fuzz.c:5545-5580 | The bytes left out are exactly those of a block of eight, not the first or last, in which no complemented byte changes the path, provided that paths are compared and at most ninety percent of the blocks are wanted |
| Effector.ByteStages | afl-2.57b/afl-fuzz.c:5353-5985 | All byte-sized stages in their order make exactly the runs the counting theorem is about |
| Extras.Overwrite | afl-2.57b/afl-fuzz.c:6143-6183 | The stage restores the input after each offset although it never restores between tokens, and runs exactly the described buffers |
| Extras.RunsAreOneWrites | afl-2.57b/afl-fuzz.c:6155-6176 | Every buffer run is the input with exactly one token written over it |
| Extras.EligibleIsRun | afl-2.57b/afl-fuzz.c:6155-6176 | Every token that fits, is let through and changes the input is run at every such offset |
| Extras.NoRunRepeats | afl-2.57b/afl-fuzz.c:6163-6164 | No buffer is run twice in a row |
| Extras.OverwriteExactly | afl-2.57b/afl-fuzz.c:6143-6183 | Over the whole stage, every run is the input with one token, let through, written over it at one offset where it fits and one of its bytes lies in a block that is flagged; and each such buffer other than the input is run |
| Extras.UnsortedLeavesRest | afl-2.57b/afl-fuzz.c:6149-6152 | Out of order, a longer token leaves a rest behind unless it happens to match the input there |
| Extras.InsertAll | afl-2.57b/afl-fuzz.c:6190-6232 | Each token is inserted at each offset unless the result is too long, from one scratch buffer whose head is copied along |
| Extras.InsertExactly | afl-2.57b/afl-fuzz.c:6190-6232 | Exactly the buffers with one token put in at one offset, the end included, are run, as long as they are not too long |
| AutoExtras.AutoDict.MaybeAdd | afl-2.57b/afl-fuzz.c:1866-1967 | A token is rejected exactly if uniform, built in or known; otherwise one entry is counted up, added, or replaced in the back half; the list stays bounded, free of duplicates up to case, and in its order |
| Interesting.IsBuiltIn | afl-2.57b/afl-fuzz.c:1881-1901 | The loops over the tables recognise exactly the words that equal a value of the table as it is compared, or a swapped one |
| Interesting.NoneMissed | afl-2.57b/afl-fuzz.c:1893-1901 | Of four bytes a token is built in exactly if they are one of the 27 interesting values, low byte first or high byte first |
| Interesting.OneMissed | afl-2.57b/afl-fuzz.c:1883-1891 | Of the tokens of two bytes that are one of the 19 interesting values in either byte order exactly one is not recognised, -128 with its low byte first: the signed value is compared to an unsigned word |
| AutoExtras.AutoDict.FindExtra | afl-2.57b/afl-fuzz.c:1903-1911 | Looking only at tokens of the right length in the sorted list finds exactly the case-insensitive matches |
| AutoExtras.AutoDict.EvictionSparesFront | afl-2.57b/afl-fuzz.c:1929-1953 | A new token never drives out one of those in use |
| AutoExtras.SortsInOrder | afl-2.57b/afl-fuzz.c:1955-1965 | The two sorts put the most used tokens first and these in order of length |
| AutoExtras.FrontIsAscending | afl-2.57b/afl-fuzz.c:6252-6283 | The tokens in use are in the order the overwriting stage relies on |
| AutoExtras.OrderExactly | afl-2.57b/afl-fuzz.c:1955-1965 | The order kept: the tokens in use ascend in length, and every token has been hit at least as often as any later one that is not in use |
| AutoExtras.MemcmpNocase | afl-2.57b/afl-fuzz.c:1856-1861 | The comparison ignores exactly the case of ASCII letters |
| AutoExtras.SameUpToCase | afl-2.57b/afl-fuzz.c:1856-1861 | Texts count as the same exactly if they are of one length and differ only in the case of ASCII letters |
| Havoc.ChooseBlockLen | afl-2.57b/afl-fuzz.c:4812-4849 | The block length is one of the four ranges cut to the limit: only the first during the first ten minutes or cycle, and the last two from the third cycle on |
| Havoc.StackKeepsSize | afl-2.57b/afl-fuzz.c:6346-6718 | No stack of allowed changes makes the buffer empty or too long |
| Words.AdjustedBy | afl-2.57b/afl-fuzz.c:6420-6512 | A word adjusted in either byte order reads, in that order, as the old one plus the amount, wrapping around |
| HavocStage.Mutator.Tweak | afl-2.57b/afl-fuzz.c:6348-6716 | One random change of one of the seventeen kinds, each with what it does to the buffer written out: which byte, word, block or token goes where, and when nothing is changed; it stays in bounds |
| HavocStage.Mutator.RandomByte | afl-2.57b/afl-fuzz.c:6514-6521 | The random byte is never a no-op |
| HavocStage.Mutator.DeleteBlock | afl-2.57b/afl-fuzz.c:6523-6546 | Deletion takes out a block of a length that may be drawn, closes the gap and leaves at least one byte |
| HavocStage.Mutator.CloneBlock | afl-2.57b/afl-fuzz.c:6548-6596 | Insertion puts in a piece of the buffer or one byte repeated, in a new buffer, only with room to spare |
| HavocStage.Mutator.OverwriteBlock | afl-2.57b/afl-fuzz.c:6598-6622 | Overwriting puts a piece of the buffer or one byte repeated over it, overlapping or not |
| HavocStage.Mutator.InsertExtra | afl-2.57b/afl-fuzz.c:6664-6716 | A token of one of the dictionaries is inserted, unless the result would be too long for it |
| HavocStage.Mutator.Restore | afl-2.57b/afl-fuzz.c:6723-6728 | Whatever the stack did, allocation, length and bytes of the input are back |
| HavocStage.Mutator.Round | afl-2.57b/afl-fuzz.c:6342-6728 | One round runs the input after a stack of 2, 4, ... or 128 changes, each one of its kind to what the changes before it leave, and restores it |
| HavocStage.Mutator.Stage | afl-2.57b/afl-fuzz.c:6335-6745 | For every pattern of finds: the stage makes exactly as many runs as the doubling of its 32-bit length gives, counts the finds, and every buffer run is the input after such a stack, of between 1 and 1048576 bytes |
| HavocStage.LengthWithScore | afl-2.57b/afl-fuzz.c:6730-6742 | With a score, the runs are at most 3200 / score times as many as planned, whatever finds there are |
| HavocStage.LengthWithoutFinds | afl-2.57b/afl-fuzz.c:6335-6337 | Without finds a stage is as long as planned |
| HavocStage.NoScoreDoubles | afl-2.57b/afl-fuzz.c:6730-6742 | With no score, for every number n of finds whose doublings fit in 32 bits there is a stage with exactly these finds that makes 2^n times the planned runs |
| HavocStage.TooLongEnds | afl-2.57b/afl-fuzz.c:6730-6742 | The first doubling that does not fit makes the length negative and ends the stage after as many runs as there were finds |
| HavocStage.SixteenRuns | afl-2.57b/afl-fuzz.c:6730-6742 | Sixteen planned runs become 2^30 by 26 finds in a row, and 27 by one find more |
| HavocStage.LocateDiffs | afl-2.57b/afl-fuzz.c:555-577 | The first and the last place of difference, or -1 exactly if there is none |
| HavocStage.Splice | afl-2.57b/afl-fuzz.c:6817-6836 | There is a splice exactly if the inputs differ in two places, the later one beyond the first two bytes; it is cut between two differences, has the length of the second input and always differs from the first |
| HavocStage.SpliceIsOld | afl-2.57b/afl-fuzz.c:6828-6834 | Two inputs whose splice at the first difference is the second one again |
| HavocStage.SpliceIsNew | afl-2.57b/afl-fuzz.c:6828-6834 | A splice is the second input itself exactly if it is cut at the first difference |
| Dislocator.Allocator.Alloc | afl-2.57b/libdislocator/libdislocator.so.c:96-150 | Refuses exactly what exceeds the limit or cannot be mapped; otherwise lays out a block of zeros with header and guard page, and disturbs no other block |
| Dislocator.Allocator.Malloc | afl-2.57b/libdislocator/libdislocator.so.c:189-201 | The same, with the bytes clobbered |
| Dislocator.Allocator.Calloc | afl-2.57b/libdislocator/libdislocator.so.c:156-182 | Refuses exactly the products that do not fit in 64 bits; otherwise zeros of the true product's length |
| Dislocator.Allocator.Free | afl-2.57b/libdislocator/libdislocator.so.c:208-232 | Closes exactly the block's own pages and takes its length off the total; a second free faults, and a pointer that was never handed out faults or aborts |
| Dislocator.Allocator.Realloc | afl-2.57b/libdislocator/libdislocator.so.c:238-257 | The new block holds the common bytes and clobber behind them; the old one is freed only if there was room for both; a freed or strange pointer faults or aborts with the new block already made |
| Dislocator.BlockMeetsGuard | afl-2.57b/libdislocator/libdislocator.so.c:116-144 | In every history a block ends exactly at an unreadable page, a multiple of 4096, has the fewest pages that hold it and its header of 8 bytes, and these are readable exactly while it lives |
| Dislocator.TotalIsLive | afl-2.57b/libdislocator/libdislocator.so.c:146-146 | In every history the total is the sum of the live lengths and within the limit |
| Dislocator.FreeRecovers | afl-2.57b/libdislocator/libdislocator.so.c:218-228 | Free finds the first page and the page count the block was made with |
| Dislocator.FreedPagesExact | afl-2.57b/libdislocator/libdislocator.so.c:218-227 | Its 32-bit page count is right exactly if rounding up stays within 32 bits |
| Dislocator.LimitTestExact | afl-2.57b/libdislocator/libdislocator.so.c:101-101 | The wrapping limit test is the test on the true sum |
| Dislocator.CallocTestExact | afl-2.57b/libdislocator/libdislocator.so.c:160-164 | The division test fires exactly if the product overflows |
| Graphs.InitDistancesFrom | distance/distance_calculator/distance.bin.cc:75-79 | The search leaves a closed set of vertices with path lengths that no edge can shorten, and zeros elsewhere |
| Graphs.RelaxedIsExact | distance/distance_calculator/distance.bin.cc:75-79 | These are exactly the reachable vertices and their shortest distances |
| Graphs.ZeroMeansUnreachable | distance/distance_calculator/distance.bin.cc:102-102 | Zero away from the source stands for "no path", and for nothing else |
| Distances.SearchedEntry | distance/distance_calculator/distance.bin.cc:81-132 | The version on breadth-first search writes the reference: ten times the own distance of a block that has one, or else the least harmonic mean over the vertices of the name |
| Distances.SearchedDistance | distance/distance_calculator/distance.bin.cc:93-126 | It computes that least mean |
| Distances.LibraryEntry | distance/distance_calculator/distance.py:59-98 | The version on shortest paths writes the same reference, so both agree in exact arithmetic, in both modes |
| Distances.LibraryDistance | distance/distance_calculator/distance.py:66-93 | It computes the same least mean |
| Distances.EntryExists | distance/distance_calculator/distance.bin.cc:87-131 | Nothing is written exactly if the name has no distance of its own and none of its vertices reaches anything; what is written is zero exactly for an own distance of zero |
| Distances.MeanWithin | distance/distance_calculator/distance.bin.cc:98-105 | In a call graph the mean lies between one more than the least and one more than the greatest distance reached |
| Distances.BlockMeanWithin | distance/distance_calculator/distance.bin.cc:106-121 | In a control-flow graph the mean lies between the bounds of what the vertices reached count as: one more than the steps to them and ten times the distance of their block |
| Distances.HarmonicMean | distance/distance_calculator/distance.bin.cc:98-105 | Over one vertex the mean is one more than the steps and the offset; over more, the numbers reached divided by the means add up |
| Distances.MeansAre | distance/distance_calculator/distance.bin.cc:98-121 | In a call graph the mean is this one over the targets; for one block it is this one over its vertices with ten times its distance as the offset |
| Distances.BlockMeans | distance/distance_calculator/distance.bin.cc:106-121 | Over several blocks, each block reached counts once: the numbers of blocks reached divided by their means add up |
| Distances.BestIsLeast | distance/distance_calculator/distance.bin.cc:123-126 | The result is the mean of one of the vertices and no greater than that of any |
| Distances.CallGraphDistance | distance/distance_calculator/distance.bin.cc:123-131 | Nothing is written exactly if no vertex of the name reaches a target; otherwise the value is within the bounds |
| Annealing.Distances.AddToQueue | afl-2.57b/afl-fuzz.c:829-838 | The kept range is exactly the least and the greatest positive distance of the entries |
| Annealing.Distances.Calibrate | afl-2.57b/afl-fuzz.c:2707-2722 | Entries measured later keep the range exact |
| Annealing.Cools | afl-2.57b/afl-fuzz.c:4918-4947 | Every schedule starts at temperature 1 and only cools, never to zero |
| Annealing.CooledAtTheEnd | afl-2.57b/afl-fuzz.c:4937-4947 | Every schedule has cooled to 1/20 when the time is up; halfway the quadratic one is the warmer of the two polynomial ones |
| Annealing.HowTheyCool | afl-2.57b/afl-fuzz.c:4926-4947 | In equal times the linear schedule gains equally and the exponential one by equal factors; the quadratic one is the linear one at the square of the time; the logarithmic one turns products into sums |
| Annealing.PowerBounds | afl-2.57b/afl-fuzz.c:4953-4966 | For every distance in range and every temperature the factor is in [1/32, 32], and it is 1 at temperature 1 |
| Annealing.PowerIs | afl-2.57b/afl-fuzz.c:4953-4966 | The factor is two to the power of five at the least distance, falling evenly to minus five at the greatest, all of it times one minus the temperature; it is 1 for inputs that reach no target or lie below the range |
| Annealing.PowerFalls | afl-2.57b/afl-fuzz.c:4953-4966 | At any temperature more distance never means more power; the closest gets at least 1, the farthest at most 1 |
| Annealing.CoolingSeparates | afl-2.57b/afl-fuzz.c:4962-4963 | Cooling gives power to the closer half and takes it from the farther half |
| Annealing.Entry.CalculateScore | afl-2.57b/afl-fuzz.c:4856-4993 | The score is the truncated, capped product, at most 1600, and not zero if it was at least 32 before distance came in; the handicap counts down |
| Annealing.BaseBounds | afl-2.57b/afl-fuzz.c:4862-4910 | Before distance comes in, the score is the product of four factors given by their steps (speed at 10, 4, 2, 4/3, 1/2, 1/3 and 1/4 of the average, and so on), with the fraction cut off after the second, and between 2 and 18000 |
| Annealing.BetterStartsNoLess | afl-2.57b/afl-fuzz.c:4862-4910 | An entry that is no slower, covers no less, came no earlier and lies no less deep never starts from a lower score |
| Annealing.ScoreIs | afl-2.57b/afl-fuzz.c:4969-4975 | The score is the base times the factor with the fraction cut off, unless the cap of 1600 stops it |
| Annealing.CloserScoresNoLess | afl-2.57b/afl-fuzz.c:4953-4975 | Of two entries that differ only in distance the closer one never scores less, truncation and cap included |
| Annealing.DistanceIgnoredAtFirst | afl-2.57b/afl-fuzz.c:4953-4969 | At the start distance plays no part, under any schedule |
| Annealing.ScoreVanishes | afl-2.57b/afl-fuzz.c:4951-4975 | At every time and for every distance in range the score is zero exactly if the product is below one; that needs a score below 32 before, and an entry in the farther half of the range |
| Annealing.FarthestVanishes | afl-2.57b/afl-fuzz.c:4937-4975 | When the time is up in the linear schedule, the farthest entry ends up with no score whenever it had less than 16 before |
| Annealing.ScoreMayVanish | afl-2.57b/afl-fuzz.c:4856-4993 | So it is computed for an entry that runs for a thousand times the average |
| GFuzz.History.AddToHistory | gfuzz-diversity.h:174-193 | The history is always the newest snapshots, as many as there is room for, oldest first from the head; the lower coverage bound never moves |
| GFuzz.HashDistance | gfuzz-diversity.h:66-77 | The shift loop counts the bits in which two hashes differ |
| GFuzz.HammingIsMetric | gfuzz-diversity.h:66-77 | That count is a metric |
| GFuzz.VarSimilarity | gfuzz-diversity.h:80-120 | The typed comparison with its fall-through is between 0 and 18, zero on equal states, and zero on different strings exactly if both are of odd length and agree in the low byte |
| GFuzz.VarDistanceLaws | gfuzz-diversity.h:80-120 | Comparing two states is symmetric, zero for equal ones, and between 0 and 18 |
| GFuzz.VarDistanceIs | gfuzz-diversity.h:80-120 | The distance of two states: 4/635 for each step between two characters; 0.72 for each bit by which the hashes of two strings differ over the shorter length, and 0.48/255 for each step between their lengths; one for other states unless equal; zero if one is unset |
| GFuzz.StringsTellApart | gfuzz-diversity.h:83-117 | Different strings lie at a positive distance, except exactly those of odd length whose hashes have the same low byte |
| GFuzz.OddStringsComparedAsChars | gfuzz-diversity.h:86-91 | Two such strings of lengths 1 and 3, at distance zero |
| GFuzz.CountIs | gfuzz-diversity.h:200-206 | The count of a snapshot is the number of variables that are set |
| GFuzz.Coverage | gfuzz-diversity.h:155-156 | The coverage times the number of variables is that count; it is zero if there are none |
| GFuzz.EvaluateDiversity | gfuzz-diversity.h:122-171 | The nested loops compute the weighted mean distance and the clamped coverage score |
| GFuzz.MeanIsAverage | gfuzz-diversity.h:131-152 | The mean distance is an average: over a longer history the means of its parts count by their lengths |
| GFuzz.MeanOfOne | gfuzz-diversity.h:131-152 | Over one set variable and one snapshot the mean is the distance of the two states |
| GFuzz.CoverageScoreIs | gfuzz-diversity.h:154-163 | The coverage score is the place of the coverage in its range, widened by 0.0001 at the top, cut to 0 and 1 |
| GFuzz.DiversityBounds | gfuzz-diversity.h:122-171 | The diversity score lies between 0 and 11.2, and is 1 for an empty history |
| GFuzz.Observe | afl-2.57b/gfuzz-integration.h:117-153 | The states of a run are scored against the history as it was; they join it, and widen the coverage range, exactly if the score is above 0.3 |
| GFuzz.JoinsExactly | afl-2.57b/gfuzz-integration.h:147-150 | States join any history that is not empty exactly if their mean distance from it is above one half less two thirds of their coverage score; so with a coverage score above three quarters they always do |
| GFuzz.RepeatJoins | afl-2.57b/gfuzz-integration.h:147-150 | States that are all the history holds join it once more exactly if their coverage score is above three quarters |
| GFuzz.ObserveTwice | afl-2.57b/gfuzz-integration.h:117-153 | The states 5 and 7 of two variables, observed twice in a row, are in the history twice |
| GFuzz.AmongOthers | afl-2.57b/gfuzz-integration.h:147-150 | With hardly any coverage, states join a history again that holds them and three times others |
| GFuzz.Weights.Update | gfuzz-diversity.h:214-241 | One update moves the traditional weight by rate times the difference of the gains, cut to 0.1 and 0.9; both weights always sum to one |
| GFuzz.UpdateAll | gfuzz-diversity.h:214-241 | A sequence of updates leaves the weight that the statements below are about |
| GFuzz.WeightsStay | gfuzz-diversity.h:214-241 | Over any run the weight stays between 0.1 and 0.9 |
| GFuzz.WeightFollowsCoverage | gfuzz-diversity.h:222-227 | Gains that only ever favour coverage never lower the traditional weight |
| GFuzz.WeightFollowsState | gfuzz-diversity.h:222-227 | Gains that only ever favour state never raise it |
| GFuzz.Weights.CombinedBetween | gfuzz-diversity.h:244-251 | The combined score lies between the two it combines, as far from the second as the traditional weight says |

## Left out

- Corpus.Corpus.UpdateBitmapScore: assumes that an entry's trace is the same each time it is scored; without that the packed trace may lag behind the slots held. Speed times size is not cut to 64 bits.
- Corpus.Corpus.Calibrate: is for entries not scored yet, as its callers have it; the averaging of run times and variable-behaviour bookkeeping are not modelled.
- Corpus.Corpus.AddToQueue: the links by hundreds are in `QueueLinks`, the distances in `Annealing.Distances`.
- Corpus.Corpus.TrimCase: every run succeeds; a run that fails or is stopped ends the fuzzer, and the entry with it.
- ForkServer.CrashesAreReal: children are ended only by themselves or by the fuzzer, and fork always succeeds; short reads, aborted runs and reuse of process numbers are not modelled.
- HashSets.HashSet.Add: allocation always succeeds, capacities are unbounded (the shift in C is 32 bits wide), and the load test is in exact arithmetic.
- DictionaryFile.LoadExtrasFile: each element is what one call of the line reader yields; the directory form of dictionaries is left out.
- Deterministic.EachCandidateOnce: covers the byte-sized stages; of the 16- and 32-bit stages the flips and the arithmetic are in `WordFlips` and `WordArith`, the interesting values and `could_be_interest` are left out; the collecting of tokens during the bit flips is left out.
- Extras.InsertAll: the copy made after the last offset, of a byte behind the input into a byte never run, is left out; stage counters are too.
- HavocStage.Mutator.Stage: a length that does not fit wraps around, where C leaves it undefined; a run finds something or not whatever its buffer is, and from some run on none does; random draws are arbitrary numbers in their range.
- HavocStage.Splice: the other entry is chosen in `QueueLinks`; reading its file is left out.
- Dislocator.Allocator.Free: what lies below a pointer that no call handed out is a parameter, and not the canary; the system maps pages that nothing else uses; a failing `mprotect` is left out.
- Dislocator.Allocator.Realloc: the same, and such a pointer is not the address of the new block.
- Annealing.Cools: `pow` and `log` are monotone functions with a few of their values, the logarithm of 13359.7268297 being 9.5 as the code has it; rounding of floating-point numbers is left out throughout.
- GFuzz.EvaluateDiversity: in exact arithmetic.
- Distances.LibraryDistance: the library's shortest path is a parameter that is right; reading graphs, labels, names and the blocks' own distances is left out (the two versions check different parts of a target line there), and sums over hash tables are in list order.
- Coverage.Maps.HasNewBits: the 64-bit flavour; the 32-bit one has an unbalanced brace.
- Tmin.Target.Run: equal checksums stand for equal traces.
- Processes, pipes, signals and files as system calls; the status screen, statistics, options, directory setup and compiler wrappers; the LLVM and QEMU passes.
- afl-cmin, afl-llvm-rt, afl-analyze, afl-showmap and afl-gotcpu would repeat these theorems.
