# Verified model of the Zenoh benchmarks

The programs in `benchmarks/` measure how long messages take from publishers to
subscribers. This project models the three parts that decide whether the figures they
print can be trusted, and proves properties of them.

**The Start/Stop protocol** (`Protocol*.dfy`). One coordinator and n children share one
unsynchronised memory cell each. Messages are stored and polled byte by byte, in any
order, so stores and polls of a cell overlap freely. `Protocol.Step` is the move of one
process; a run is a sequence of events. Proved, for every n unless said otherwise:

- No subscriber is stopped before every publisher has finished, for any initial cells and
  any interleaving, for exactly the even n and for n = 1.
- Every poll, whether it matches or not, agrees with the cell as a whole at one instant
  within it, and the protocol reaches the same states as one that polls a cell in a single
  step.
- A fair run gets the coordinator past its last wait if and only if some scan counts
  `max_process / 2` publishers and no subscriber misses its Start; for an even n, if and
  only if no signal is ever lost.
- Three rules on the order of signals make every fair run finish for exactly the even n,
  and each of them is needed. For every odd n, one included, a run that obeys all three and
  loses nothing scans for ever, because one publisher more exists than the scan looks for.

**The statistics** (`Sums`, `Sorting`, `Stats*`, `RealArith`). `getStats` sorts in place
and reports mean, interpolated percentiles, median, standard deviation, Pearson skew and
kurtosis. Proved for every sample: the skew lies in [-3, 3]; the variance is at most
(max - mean)(mean - min), and zero exactly when min equals max; the percentiles are
ordered and have the ranks they should have; and a perturbation of the sample by e moves
no percentile, no mean and no standard deviation by more than e. The reported kurtosis is
always -3 or not a number, because `1 / size` divides integers, while what it sets out to
compute is at least -2.

**The data path** (`Decimal`, `Text`, `Messages`, `Listener`, `Hex`, `Files`, `EndToEnd`,
`TextOrder`, `Retention`, `Ports`). Messages are stamped, split and parsed; listeners keep
tallies; vectors are written with nine decimals and read back; URIs travel as hexadecimal
text; old result directories are pruned; connect keys are put together. Proved: round
trips, what a listener's fields say about its whole history, and end to end, for the
subscribers' and the publishers' files alike, that the sample holds every measured number
once and that its mean, percentiles and standard deviation are within half a nanosecond of
those of what was measured, in whatever order the files are listed.

Doubles are modelled as exact reals, with a separate value for 0.0 / 0.0. The square root
is an argument, required to be non-negative with the variance as its square. `long` is
modelled with its limits where text is parsed (`strtol`), and the unsigned subtraction
that gives the length of the filler with its wrap-around. Clocks, random text, the order
of directory and hash-map iteration, and the outcome of calls that may fail are arguments.

Things in the code that a reader may not expect are kept as they are: the kurtosis above,
the scan that looks for `max_process / 2` publishers when their number is rounded up,
`messeges_size` counting every accepted message twice, and a key of `]` alone when no
process has the wanted role.

## Model

| member | source | states |
|---|---|---|
| ProtocolSafety.StepKeepsInv | benchmarks/src/run_tests.cpp:199-231 | for any number of children every move of coordinator, publisher or subscriber keeps the invariant that ties cell bytes, polls in progress and the scan's count to the work publishers have done |
| ProtocolSafety.SafetyForEvenCounts | benchmarks/src/run_tests.cpp:199-226 | with an even number of children, any cells to begin with and any interleaving, once a subscriber is told to stop or has left its run loop every publisher has made all sends and passed the result write |
| ProtocolRuns.SafetyExactly | benchmarks/src/run_tests.cpp:178-226 | that holds in all runs if and only if the number of children is even or one; for every odd number from three a run breaks it, because one publisher more exists than `max_process / 2` |
| ProtocolMoves.ReadsAsComparesEqual | benchmarks/src/sub_tests.cpp:178-185 | the text that std::string makes of a cell, up to the terminator, equals Start or Stop exactly when the cell begins with the message and its terminator |
| ProtocolMoves.FailureEndsChild | benchmarks/src/pub_test.cpp:146-149 | a call that fails ends the child at once and changes nothing else, nothing else ends it so, and a send is counted exactly when it succeeds |
| ProtocolPolls.SubscriberStopIsThere | benchmarks/src/sub_tests.cpp:245-251 | a subscriber leaves its run loop only at an instant at which its cell as a whole reads Stop and the coordinator has begun to store it |
| ProtocolPolls.ScanPollHasAnInstant | benchmarks/src/run_tests.cpp:207-214 | the outcome of the scan's poll of a publisher's cell, matching or not, is that of reading the whole cell at one instant within the poll |
| ProtocolPolls.StopPollHasAnInstant | benchmarks/src/sub_tests.cpp:245-251 | likewise for the poll of a subscriber in its run loop |
| ProtocolPolls.StartPollHasAnInstant | benchmarks/src/sub_tests.cpp:178-185 | if a subscriber's poll for Start begun in some state is complete, the cell as a whole read Start at one of the instants in between if it matches, and did not at one if it does not, though Start and Stop were stored byte by byte meanwhile |
| ProtocolPolls.StartIsGenuine | benchmarks/src/sub_tests.cpp:178-185 | over zeroed cells Start is polled only after the coordinator has stored every letter of it |
| ProtocolPolls.StopIsGenuine | benchmarks/src/sub_tests.cpp:245-251 | Stop is polled only after the coordinator has begun to store it |
| ProtocolAtomic.Simulates | benchmarks/src/run_tests.cpp:199-231 | after any run, the protocol with single-step polls has a run to the same cells, sends, files and processes, where a scan's poll bound to fail counts as failed and any of the subscribers whose cell has read Start in the present poll may have passed |
| ProtocolAtomic.AtomicExactly | benchmarks/src/sub_tests.cpp:178-251 | a state with no poll in progress is reached by the protocol that polls byte by byte if and only if it is reached by the one that polls in single steps |
| ProtocolProgress.LostStays | benchmarks/src/run_tests.cpp:199-202 | a signal that has been overwritten stays lost whatever moves next |
| ProtocolProgress.MoveRanks | benchmarks/src/run_tests.cpp:199-231 | no move of any process raises the rank of any process, as long as no subscriber has missed its Start and, while the coordinator scans, the number of children is even and no publisher's Stop is lost |
| ProtocolProgress.HelpfulLowers | benchmarks/src/run_tests.cpp:199-231 | under the same condition, before the end there is always a process whose own next move lowers its rank |
| ProtocolProgress.ProgressExactly | benchmarks/src/run_tests.cpp:199-231 | for any number of children a fair run gets the coordinator past its last wait if and only if some scan counts `max_process / 2` and no subscriber misses its Start; for an even number, if and only if it never loses a signal |
| ProtocolRuns.InOrderFinishes | benchmarks/src/run_tests.cpp:199-231 | with an even number of children a fair run finishes if no publisher fails, every Start is complete before that publisher's Stop begins, and every subscriber has seen Start before its Stop begins |
| ProtocolRuns.QuickPublisherIsStuck | benchmarks/src/pub_test.cpp:161-170 | the ordering of a publisher's Stop after its Start is needed: a run without any failure, in which no subscriber is stopped, whose Start has overwritten a publisher's Stop, and after which no continuation finishes |
| ProtocolRuns.SlowSubscriberIsStuck | benchmarks/src/sub_tests.cpp:178-185 | the ordering of a subscriber's poll before its Stop is needed: a run without any failure, in which every Start is complete before that publisher's Stop begins, whose Stop has overwritten a subscriber's Start, and after which no continuation finishes |
| ProtocolRuns.FailedPublisherIsStuck | benchmarks/src/pub_test.cpp:94-98 | that no publisher fails is needed: a run in which the signals are in order, a publisher's transport does not start, and the coordinator scans for ever |
| ProtocolRuns.EveryRuleIsNeeded | benchmarks/src/run_tests.cpp:199-231 | each of the three rules is needed: with an even number of children there is a run that obeys the other two throughout and after which nothing finishes |
| ProtocolRuns.OddHangs | benchmarks/src/run_tests.cpp:178-226 | for every odd number of children, one included, there is a run that obeys all rules throughout and loses no signal, and after which no continuation finishes |
| ProtocolRuns.InOrderExactly | benchmarks/src/run_tests.cpp:178-226 | all fair runs that obey the rules finish if and only if the number of children is even |
| Stats.SortInPlace | benchmarks/src/utils.h:445 | the vector is left as the sorted arrangement of what it held |
| Stats.GetMedian | benchmarks/src/utils.h:301-313 | sorts the vector and returns the median of the sorted vector |
| Stats.GetStats | benchmarks/src/utils.h:440-459 | leaves fewer than two values alone and returns nothing; otherwise sorts the vector and reports on the sorted vector, with the root of its variance as the standard deviation |
| Stats.IndexInRange | benchmarks/src/utils.h:336-343 | no percentile of a non-empty vector indexes outside it |
| Sorting.SortedIsUnique | benchmarks/src/utils.h:445 | two sorted arrangements of one multiset are equal, so any correct sort gives this one |
| Sorting.SortStable | benchmarks/src/utils.h:445 | if every element is at most e above its partner before sorting, so it is after sorting |
| StatsBounds.ReportIsSound | benchmarks/src/utils.h:440-459 | in every report min and max are the extreme elements, the percentiles ascend between them, the median is that of getMedianSorted, the mean is within one std of it and between the extremes, std squared is at most (max - mean)(mean - min), and for at least three values the skew is 3 (mean - median) / std, has the sign of mean less median and is within [-3, 3], and the kurtosis is -3, or both are not a number exactly for a constant sample; for two values there is neither |
| StatsBounds.ReportRanks | benchmarks/src/utils.h:450-454 | the ranks in the unsorted sample of the reported median and 75th, 90th, 95th and 99th percentiles |
| StatsBounds.ReportPercentiles | benchmarks/src/utils.h:448-454 | min, median, the four percentiles and max of the report are those interpolated at 0, 50, 75, 90, 95, 99 and 100 |
| StatsSpread.MedianMinimises | benchmarks/src/utils.h:318-328 | the median minimises the sum of absolute deviations |
| StatsSpread.MeanWithinStd | benchmarks/src/utils.h:393-408 | mean and median differ by at most one standard deviation |
| StatsSpread.SkewBounded | benchmarks/src/utils.h:393-408 | the skew of at least three values is three times mean less median in standard deviations and lies in [-3, 3], and is 0.0 / 0.0 if the standard deviation is zero |
| StatsSpread.SkewExactly | benchmarks/src/utils.h:393-408 | times the standard deviation the skew is three times mean less median; there is none exactly for fewer than three values |
| StatsSpread.KurtosisIsNeverRight | benchmarks/src/utils.h:411-420 | the code's kurtosis is -3 for every sample that is not constant and NaN for the others; the mean of fourth standardised powers less 3 is at least -2 |
| StatsSpread.KurtosisBoundIsReached | benchmarks/src/utils.h:411-420 | the bound of -2 on the intended kurtosis is reached by a sample |
| StatsBounds.VarianceBetweenExtremes | benchmarks/src/utils.h:354-364 | variance <= (max - mean)(mean - min), with max and min the percentiles 100 and 0 |
| StatsBounds.ElementNearMean | benchmarks/src/utils.h:354-364 | every element is within sqrt(n - 1) standard deviations of the mean |
| StatsBounds.ZeroVarianceExactly | benchmarks/src/utils.h:354-364 | the variance is zero exactly when percentiles 0 and 100 are equal |
| StatsPercentiles.PercentileMonotone | benchmarks/src/utils.h:331-345 | percentiles grow with the percentage, across segments too |
| StatsPercentiles.PercentileExactly | benchmarks/src/utils.h:331-345 | with p(n-1) = 100 f + r the percentile is the element at f and r hundredths of the way to the next; there is none exactly for percentages out of range |
| StatsPercentiles.PercentileRanks | benchmarks/src/utils.h:331-345 | at least floor(p(n-1)/100)+1 elements of the sample are at most the percentile and at most ceil(p(n-1)/100) are below it |
| StatsPercentiles.MiddlePercentile | benchmarks/src/utils.h:318-345 | percentile 50 equals getMedianSorted for odd and even sizes |
| StatsPercentiles.StatsAreStable | benchmarks/src/utils.h:294-298 | samples that agree within e have means and percentiles that agree within e |
| StatsStability.StdIsStable | benchmarks/src/utils.h:354-364 | the standard deviations of samples that agree within e agree within e |
| StatsPercentiles.StatsIgnoreOrder | benchmarks/src/utils.h:441-459 | the whole report depends only on the multiset of the sample |
| Text.Find | benchmarks/src/utils.h:240 | the leftmost occurrence from a position, or none |
| Text.Split | benchmarks/src/utils.h:234-252 | the loop terminates, stays in range and refines the recursive splitting at leftmost occurrences |
| Text.PiecesAreClean | benchmarks/src/utils.h:244-247 | pieces are not empty and do not contain the delimiter |
| Text.SplitUndoesJoin | benchmarks/src/utils.h:234-252 | splitting at a character inverts joining with it, for any list of non-empty pieces free of it |
| Text.PiecesKeepTheRest | benchmarks/src/utils.h:234-252 | the pieces in order hold all of the data but the delimiters |
| Text.PiecesAreCuts | benchmarks/src/utils.h:234-252 | for any delimiter the pieces are the cuts at its leftmost occurrences that are not empty, and joining all cuts with the delimiter gives the data back |
| Text.CutsAreUnique | benchmarks/src/utils.h:234-252 | there is only one way so to cut |
| Decimal.PrintExactly | benchmarks/src/pub_test.cpp:131 | a number is printed as the one numeral without leading zeros that stands for it |
| Decimal.StrToLReads | benchmarks/src/sub_tests.cpp:78-79 | of any text strtol takes blanks, a sign and digits, limited to the range of a long, and nothing of what follows |
| Decimal.StrToLOfPrint | benchmarks/src/sub_tests.cpp:78-79 | strtol reads back every printed number up to the largest long |
| Messages.PrefixIsShort | benchmarks/src/pub_test.cpp:130-135 | for every clock reading and round the prefix has at most 46 characters, so the unsigned subtraction never wraps around |
| Messages.MessagePieces | benchmarks/src/pub_test.cpp:131-135 | split at the bar a message gives its stamp, its round and its filler, and it holds nothing else but the three separators |
| Messages.Publish | benchmarks/src/pub_test.cpp:122-158 | the nested loops send the messages of all rounds, each of 200 characters, and record the durations of all but the first; on the first failed send they stop right after it |
| Messages.SendsAt | benchmarks/src/pub_test.cpp:122-154 | which send each message and each recorded duration comes from, the duration being the time over the send to the nanosecond; none is of the first round |
| Listener.CustomListener.OnReceive | benchmarks/src/sub_tests.cpp:39-108 | fields and status after one message, branch by branch; a message that is accepted adds one duration, from its stamp to the clock, to the nanosecond |
| Listener.RejectedChangeNothing | benchmarks/src/sub_tests.cpp:45-92 | a message is rejected exactly when it is empty or its first piece does not split in exactly two, and then no field changes; the empty-counter branch is never taken |
| Listener.TallyIsHistory | benchmarks/src/sub_tests.cpp:82-97 | after any messages the count is the number of durations, these are the times from stamp to receipt of the accepted messages in order, the size is twice their total and the counter is the first that is not zero |
| Listener.MessageRoundTrip | benchmarks/src/sub_tests.cpp:50-97 | a publisher's message is accepted, gives back sec, nsec and round exactly, and adds one duration, receive time less send time to the nanosecond |
| Hex.ConvertToHex | benchmarks/src/utils.h:191-198 | two lower-case digits for each byte, in order |
| Hex.ConvertFromHex | benchmarks/src/utils.h:200-211 | a byte for each pair of characters, the last of which may be alone |
| Hex.DecodeEncode | benchmarks/src/utils.h:191-211 | decoding undoes encoding for every byte vector |
| Hex.EncodeDecode | benchmarks/src/utils.h:191-211 | encoding the decoding of hexadecimal text of even length gives it back in lower case |
| Hex.DecodeAt | benchmarks/src/utils.h:200-211 | the k-th byte is what is read of characters 2k and 2k + 1, modulo 256 |
| Hex.HexReads | benchmarks/src/utils.h:203-208 | what a stream reads of any text in hexadecimal: blanks, a sign, 0x and digits count, the rest does not, and without digits it is zero |
| Hex.EncodeKeepsOrder | benchmarks/src/pub_test.cpp:40-42 | texts compare as the byte vectors do |
| Hex.BytesLessExactly | benchmarks/src/pub_test.cpp:40-42 | one vector is less than another exactly when they agree up to where the one ends or has the smaller byte |
| Hex.BytesOrderIsTotal | benchmarks/src/pub_test.cpp:40-42 | of two different serialised URIs exactly one is less, so the set drops equal ones only |
| Hex.BytesOrderIsTransitive | benchmarks/src/pub_test.cpp:40-42 | the order is transitive |
| Files.FileSystem.WriteVecToFile | benchmarks/src/filesys.h:146-161 | appends a line for every element, or fails and changes nothing |
| Files.FileSystem.ReadFileToVec | benchmarks/src/filesys.h:164-182 | appends the numbers on the file's lines to the vector, or fails and changes nothing |
| Files.ReadPrinted | benchmarks/src/filesys.h:157-177 | reading a written number gives it rounded to nine decimals, for either sign |
| Files.PrintedExactly | benchmarks/src/filesys.h:157 | a text is what is written for a number exactly when it is a minus if the number is negative, a numeral, a point and nine digits, and these stand for the number in units of the ninth decimal |
| Files.LinesAre | benchmarks/src/filesys.h:152-158 | each number is written with one newline behind it, in order |
| Files.ReadFixedReads | benchmarks/src/filesys.h:172-177 | what is read of any line with a point in it: blanks, a sign and digits on either side of the point count, the rest does not, and without a digit nothing is read |
| Files.NumbersByLine | benchmarks/src/filesys.h:172-180 | every line counts, the last one also without a newline, and a line without a number is passed over |
| Files.NumbersOfLines | benchmarks/src/filesys.h:152-180 | reading a written vector gives all of its elements, rounded, in order |
| Files.AppendedIsRead | benchmarks/src/filesys.h:146-158 | appending leaves what a file of whole lines held before as it was |
| EndToEnd.DumpListeners | benchmarks/src/sub_tests.cpp:260-265 | appends every non-empty vector of the listeners to the process's file, passing over those for which the file cannot be opened |
| EndToEnd.DumpedFiles | benchmarks/src/sub_tests.cpp:260-265 | the file gains the lines of all vectors, is created only if there are any, and no other file changes |
| EndToEnd.Collect | benchmarks/src/run_tests.cpp:234-245 | the two samples are what the listed files of each kind yield, in listing order |
| EndToEnd.CollectedIgnoresOrder | benchmarks/src/run_tests.cpp:237-245 | the order of the listing does not change the sample as a multiset |
| EndToEnd.Conservation | benchmarks/src/run_tests.cpp:234-245 | from any listing of the directory the sample of the files of a kind is, as a multiset, what the processes of that kind have measured, rounded to nine decimals, if the run began with no file of the kind: one number for each message counted as arrived, and for each send of a publisher but those of the first round |
| EndToEnd.StatsOfFiles | benchmarks/src/run_tests.cpp:234-248 | mean, every percentile and standard deviation from the files are within half a nanosecond of those of what was measured |
| EndToEnd.ListingOrderIsIrrelevant | benchmarks/src/run_tests.cpp:234-248 | the report does not depend on the order of the listing |
| Retention.FormatOrder | benchmarks/src/run_tests.cpp:94-98 | within one century directory names are ordered as the times are |
| Retention.FormatSays | benchmarks/src/run_tests.cpp:97 | a directory's name has 17 characters, with the year of the century, month, day, hour, minute and second in two digits each and the separators between them |
| TextOrder.LessExactly | benchmarks/src/run_tests.cpp:110 | one path sorts before another exactly when they agree up to where the one ends or has the smaller character |
| Retention.Store.GetDirectories | benchmarks/src/filesys.h:85-103 | the entries that start with a digit, each once |
| Retention.Store.StartRun | benchmarks/src/run_tests.cpp:100-116 | the run's directory is added and, when there are then more than eight, exactly the five least are removed |
| Retention.Store.GetWorkingDir | benchmarks/src/filesys.h:114-119 | returns the greatest result directory |
| Retention.AtMostEight | benchmarks/src/run_tests.cpp:112-116 | from at most eight result directories there are at most eight after the next start |
| Retention.CurrentSurvivesExactly | benchmarks/src/run_tests.cpp:112-116 | a run's directory survives its own pruning if and only if nothing is pruned or five others come before it |
| Retention.CurrentExactly | benchmarks/src/run_tests.cpp:112-116 | a run's directory is the greatest after its pruning if and only if none was named later before |
| Retention.RetentionOverRuns | benchmarks/src/run_tests.cpp:94-116 | over all runs at non-decreasing times of one century, starting from at most eight there are at most eight after every start; and getWorkingDir returns the directory of the run after every start, so that it is never pruned, if and only if no earlier directory is named later than the first run's |
| Retention.CenturyPrunesCurrent | benchmarks/src/run_tests.cpp:97-116 | one century is needed: after eight directories of 2099 the first run of 2100 prunes its own |
| Ports.CreateServerPortlist | benchmarks/src/utils.h:88-102 | one entry for each process and no others, publishers even and subscribers odd |
| Ports.EntryIsOfItsKey | benchmarks/src/utils.h:94-99 | the entry of process i is filed under app and i, its address is the pipe named by that key in brackets and quotes, and its role is pub for even and sub for odd i |
| Ports.GetAllTypeKeys | benchmarks/src/utils.h:104-125 | the bracketed comma list of the unwrapped addresses of a role in iteration order, or a closing bracket alone |
| Ports.KeyListsTheKind | benchmarks/src/utils.h:104-125 | for every number of processes and iteration order the list splits into the pipe of every process of the role, each once |
| Ports.KeysPartition | benchmarks/src/utils.h:127-133 | every process is in exactly one of the publishers' and the subscribers' list, by parity |

## Left out

- Floating-point rounding, overflow to infinity and `std::sqrt`: sums, quotients and roots are exact; the existence of the root is a hypothesis of the results that need it.
- Vectors with 2^31 elements or more, for which the conversion of the percentile index to `int` is undefined, and the limits of the listener's `int` and `long` counters.
- Stats.SortInPlace: the algorithm of `std::sort` is not modelled, only its outcome.
- Decimal exponents, hexadecimal floats, `inf` and `nan` when a double is read from a line: the writer produces none.
- Hex.ConvertFromHex: excludes a pair of blanks, for which the source uses an uninitialised `int`.
- Listener.CustomListener.OnReceive: excludes a stamped message without a second piece, where the source indexes past the end; the payload is the text up to its terminator.
- EndToEnd.Conservation: assumes that every result file can be opened.
- Retention.Store.StartRun: assumes that creating and removing directories succeeds; times are local times as the clock reports them.
- Creation of processes and cells (`fork`, `execvp`, `shm_open`, `mmap`) is taken to succeed, and all children exist from the start of a run; signals and `SIGTERM` are not modelled.
- Cells whose contents have no terminator within their 128 bytes, where the source would read on.
- The printing of the report, logging, and the templates that nothing instantiates.
- Zenoh transport, URI builders and serialisers, UUIDs: a serialised URI is any vector of bytes.
- `pubsub/`, `rpc/`, `start_time.cpp`, `main.cpp`, `pub.h` and `sub.h`: wrappers and timing loops around library calls.
- `fillbufferWithRandom`, `getNumberOfThreads`, and the choice of characters in `generateRandomString` beyond that they are letters and digits.
