# Verified models of the Entware feed programs

This project models the pieces of real logic carried in the Entware package feed and
proves properties of them.  `dafny verify dfyconfig.toml` checks everything.

| file | what it models |
|---|---|
| `Crc8.dfy`, `Crc8Remainder.dfy`, `Crc8Errors.dfy` | the 1-Wire CRC-8 of mp707: the bit loop, the CRC as a polynomial remainder, which corruptions it notices |
| `DiskMask.dfy`, `StatsLine.dfy`, `DiskMachine.dfy`, `DiskHistory.dfy`, `DiskOrder.dfy`, `TransitionMessage.dfy`, `DiskIntervals.dfy`, `Daemon.dfy`, `Options.dfy`, `SdIdle.dfy` | the sd-idle daemon: bit macros, reading a diskstats line, the state machine, its meaning over a history, line order, log messages, what the intervals in them add up to, the daemon with its arrays and masks, the command line, the two together |
| `UuCodec.dfy`, `Uudecode.dfy`, `UuProgram.dfy` | uudecode: one line, one input with its line buffer, many inputs and the round trip |
| `MemPool.dfy` | the counters of the accel-ppp memory pool as interleaved atomic steps |
| `AirPrint.dfy` | the format list of airprint-generate and its cut to 255 characters |
| `PrintBinary.dfy` | the binary number printer of the ltrace patch |
| `Stopwatch.dfy` | the POSIX and the Windows stopwatch of hlspxd |
| `Strings.dfy`, `CNumbers.dfy` | searching and splitting strings, decimal numerals, C integer arithmetic |

How the models are set up:

* Programs that change state are classes or array methods; each method is tied to a
  function of the old state, and the theorems are about that function.
* Times, the lines of `/proc/diskstats`, the result of parsing the uuencode header, the
  user database and the success of opening files are inputs.
* sd-idle: a line is one step with its own clock reading.  `DiskHistory` defines streaks
  and transitions from the list of accepted lines alone, without the counters, and shows
  that the incremental state is those functions of the history.
* uudecode: the line buffer is modelled with whatever earlier reads left behind the
  terminator, because the decoder reads it when a line is too short for its count.
  `UuProgram.IndependentIffComplete` says exactly when that happens.
* accel-ppp: a thread that has moved a block still owes the counters one or two updates.
  Every sequence of steps of any number of threads is a run, and an operation takes what
  other threads do between its phases as a parameter.

Where a plausible property is false of the code, the code is kept, a concrete input
shows the failure and the exact condition is proved:

* Excluding all disks does not trigger the "no disks" exit (`Options.ExcludeEverything`);
  the exit needs an earlier inclusion (`Options.NoDisksExit`).
* A time option sets something else than the number written, raised to the minimum, for
  numbers above INT_MAX and, with a 64-bit long, for some large negative ones
  (`Options.LowBitsTaken`, `Options.SettingHonoured`).
* The intervals in the messages do not add up when the clock reads zero at a transition
  or two transitions are 2^31 seconds apart (`DiskIntervals.ZeroClockLoses`,
  `DiskIntervals.LongGapWraps`); otherwise they do (`DiskIntervals.IntervalsRight`,
  `DiskIntervals.IntervalsRightThroughout`).
* A counter of the pool can be negative (`MemPool.AvailableBelowZero`), exactly while the
  updates owed outweigh the bytes behind it, so never with nothing in flight
  (`MemPool.CounterSigns`).
* A stopwatch started in second or tick zero does not run (`Stopwatch.PosixGoodIff`,
  `Stopwatch.WindowsGoodIff`), and the two stopwatches part when the ticks advance by 2^32
  (`Stopwatch.LongSpanDisagrees`, `Stopwatch.StopwatchesAgree`).
* Two wrong bits whose distance is a multiple of 127 collide (`Crc8Errors.GarbledCollides`,
  `Crc8Errors.DoubleError`), so double errors are safe up to 15 bytes and no further
  (`Crc8Errors.DoubleErrorsNoticed`).
* A first format that is too long makes the truncation loop raise ValueError
  (`AirPrint.TooLongFormat`, `AirPrint.Truncate`).

## Model

| member | source | states |
|---|---|---|
| Crc8.CRC8 | mp707/patches/010-RODOS_support.patch:167-174 | the loop feeds the eight bits of the data byte, lowest first, to a linear feedback register |
| Crc8.FoldIsRun | mp707/patches/010-RODOS_support.patch:167-174 | processing a message byte by byte equals feeding its bit stream |
| Crc8.RunLinear | mp707/patches/010-RODOS_support.patch:168-173 | superposition: the register of a combined stream is the combination of the registers, for streams of any length |
| Crc8.RunBijective | mp707/patches/010-RODOS_support.patch:168-173 | for every bit stream the register map is a bijection, with an explicit inverse |
| Crc8.DependsOnXor | mp707/patches/010-RODOS_support.patch:168-173 | a byte step depends only on the exclusive or of register and byte |
| Crc8.TableExact | mp707/patches/010-RODOS_support.patch:167-174 | a table of 256 entries computes the CRC of every message from every register if and only if its entries are the steps from register zero |
| Crc8.StepTableIs | mp707/patches/010-RODOS_support.patch:167-174 | there is such a table |
| Crc8.ResidueIsZero | mp707/patches/010-RODOS_support.patch:167-174 | after a message of any length exactly one trailing byte clears the register, the CRC of the message |
| Crc8.CheckValue | mp707/patches/010-RODOS_support.patch:167-174 | the nine digits 123456789 have CRC 0xA1, the check value of the 1-Wire CRC |
| Crc8Remainder.DivisionUnique | mp707/patches/010-RODOS_support.patch:167-174 | quotient and remainder by a monic polynomial over the two-element field are unique |
| Crc8Remainder.RunDivides | mp707/patches/010-RODOS_support.patch:168-173 | the feedback bits of a run are the quotient, and the final register the remainder, of dividing the message by x^8+x^5+x^4+1 |
| Crc8Remainder.FoldIsRemainder | mp707/patches/010-RODOS_support.patch:167-174 | for every message and initial register a byte is the CRC if and only if it is the remainder of the message polynomial times x^8 |
| Crc8Errors.CollideIffDiffClears | mp707/patches/010-RODOS_support.patch:168-173 | two messages of equal length have the same CRC exactly when their difference leaves a zero register at zero |
| Crc8Errors.BurstDetected | mp707/patches/010-RODOS_support.patch:167-174 | different messages whose differences lie within eight consecutive bits, aligned or not, have different CRCs |
| Crc8Errors.SingleByteDetected | mp707/patches/010-RODOS_support.patch:167-174 | replacing any one byte changes the CRC |
| Crc8Errors.OddErrorsDetected | mp707/patches/010-RODOS_support.patch:168-173 | any odd number of wrong bits changes the CRC |
| Crc8Errors.OrderIs127 | mp707/patches/010-RODOS_support.patch:168-173 | the zero-bit step returns a register of one to itself exactly after multiples of 127 steps |
| Crc8Errors.DoubleError | mp707/patches/010-RODOS_support.patch:167-174 | two wrong bits go unnoticed exactly when their distance is a multiple of 127 |
| Crc8Errors.DoubleErrorsNoticed | mp707/patches/010-RODOS_support.patch:167-174 | all pairs of wrong bits in messages of n bytes are noticed if and only if n is at most 15 |
| Crc8Errors.GarbledCollides | mp707/patches/010-RODOS_support.patch:167-174 | two concrete messages, one the other with two wrong bits, collide at every length from 16 bytes on |
| DiskMask.SetBit | sd-idle/src/sd-idle-2.6.c:82-84 | setting a bit shows at that bit and changes no other |
| DiskMask.ClearBit | sd-idle/src/sd-idle-2.6.c:81-84 | clearing a bit shows at that bit and changes no other |
| StatsLine.FindIoField | sd-idle/src/sd-idle-2.6.c:491-497 | the pointer loop finds the column that a split of the text puts ninth, or reports it missing |
| StatsLine.IoFieldOfColumns | sd-idle/src/sd-idle-2.6.c:491-500 | for single-spaced columns the position is the start of the ninth column; missing if and only if there are fewer than nine |
| StatsLine.IoFieldExact | sd-idle/src/sd-idle-2.6.c:491-500 | for every text the ninth column starts right behind the eighth space that follows the first character, and is missing if and only if there are fewer |
| DiskMachine.AcceptFormatted | sd-idle/src/sd-idle-2.6.c:473-500 | a formatted line is accepted if and only if its disk is managed, it fits a slot and has nine columns; it is quiet when the ninth begins with 0 |
| DiskMachine.DeviceExact | sd-idle/src/sd-idle-2.6.c:473-476 | for every line a disk is found if and only if the first " sd" stands before a letter from a to z and a space, so not in the lines of partitions |
| DiskMachine.AcceptExact | sd-idle/src/sd-idle-2.6.c:473-500 | for every line: accepted if and only if it names a managed disk so, has fewer than 160 characters and a ninth column; disk, remainder and quiet flag are read off those positions |
| DiskMachine.Projection | sd-idle/src/sd-idle-2.6.c:425-504 | in a run over any lines, state and transitions of a disk are those of a run over its own accepted lines only |
| DiskMachine.RunConcat | sd-idle/src/sd-idle-2.6.c:524-526 | passes compose: running two lists of lines one after the other is running their concatenation |
| DiskHistory.Refinement | sd-idle/src/sd-idle-2.6.c:425-461 | the incremental state of a disk is the function of its history: last line, check time times streak, spinning while below the idle time, time of the last transition |
| DiskHistory.RunRefinement | sd-idle/src/sd-idle-2.6.c:425-504 | the same for every disk after every run of the whole machine |
| DiskHistory.StreakTail | sd-idle/src/sd-idle-2.6.c:430-452 | a streak is at least k if and only if the last k lines are quiet and each repeats the one before |
| DiskHistory.StoppedMeans | sd-idle/src/sd-idle-2.6.c:430-442 | after every run a disk is stopped if and only if such a tail of its accepted lines, times the check time, reaches the idle time |
| DiskHistory.TransitionsMean | sd-idle/src/sd-idle-2.6.c:430-459 | a line adds one transition, with its direction and the time of the line, if and only if it changes whether the disk is stopped |
| DiskHistory.ThresholdIsLeast | sd-idle/src/sd-idle-2.6.c:430-435 | the threshold is the least number of repetitions whose time reaches the idle time |
| DiskHistory.StopAtThreshold | sd-idle/src/sd-idle-2.6.c:430-441 | a stop is issued exactly on the line where the streak reaches the threshold, with the counter less than one check time beyond the idle time; a spin-up exactly on the line that ends such a streak |
| DiskHistory.Alternation | sd-idle/src/sd-idle-2.6.c:430-459 | downs and ups alternate starting with a down, each names the time of the one before, and downs exceed ups by one exactly while the disk is stopped |
| DiskHistory.DownsCountCrossings | sd-idle/src/sd-idle-2.6.c:430-441 | over a history there are as many downs as prefixes whose streak equals the threshold |
| DiskHistory.SafeIffStreaksShort | sd-idle/src/sd-idle-2.6.c:431 | the int counter stays within INT_MAX in a run exactly when no streak times the check time exceeds it |
| DiskOrder.SameLinesPerDisk | sd-idle/src/sd-idle-2.6.c:478-504 | two runs in which every disk sees the same lines in the same order end alike |
| DiskOrder.LinesCommute | sd-idle/src/sd-idle-2.6.c:478-504 | two lines of different disks, each with its own time, commute from every state |
| DiskOrder.PassOrderIrrelevant | sd-idle/src/sd-idle-2.6.c:524-526 | a pass with at most one accepted line for each disk ends alike under every permutation of its lines |
| DiskOrder.UnmanagedUntouched | sd-idle/src/sd-idle-2.6.c:479-480 | an unmanaged disk keeps its initial state and has no transitions, in every run |
| TransitionMessage.BreakdownExact | sd-idle/src/sd-idle-2.6.c:409-415 | days, hours, minutes and seconds are in range, carry the sign of the interval and recombine to it, for negative intervals too |
| TransitionMessage.MessageFits | sd-idle/src/sd-idle-2.6.c:398-419 | every message with its terminator fits the 128-byte buffer |
| TransitionMessage.WriteMessage | sd-idle/src/sd-idle-2.6.c:389-421 | the successive sprintf calls leave in the buffer, and within it, the literal head, the letter, and after the first transition the parts of the interval written out; then a terminator |
| TransitionMessage.IntervalRead | sd-idle/src/sd-idle-2.6.c:407-419 | the text of an interval reads back as days, hours, minutes and seconds in this order, none zero, each of the sign of the interval and less than one of the next unit, that add up to it |
| TransitionMessage.PartedUnique | sd-idle/src/sd-idle-2.6.c:409-419 | there is only one list of such parts with a given total |
| TransitionMessage.IntervalWritten | sd-idle/src/sd-idle-2.6.c:409-419 | the text is that list written out: number, blank, unit, blank |
| TransitionMessage.MessageWritten | sd-idle/src/sd-idle-2.6.c:398-419 | a later message is a literal head, the letter, " after " and the parts of the interval |
| TransitionMessage.MessageRead | sd-idle/src/sd-idle-2.6.c:398-420 | direction, letter and, after the first transition, the parts of the interval as an int can be read back from the message |
| TransitionMessage.MessagesSpelled | sd-idle/src/sd-idle-2.6.c:398-420 | a first stop of disk a, and a spin-up of disk b after 90061 seconds, letter by letter |
| DiskIntervals.NamedInterval | sd-idle/src/sd-idle-2.6.c:395-420 | what can be read from the message of a transition is the int difference of the two times, or nothing when the earlier is zero |
| DiskIntervals.IntervalsTelescope | sd-idle/src/sd-idle-2.6.c:395-420 | in every run, the intervals read from the messages of a disk add up to last minus first nonzero transition time, less the parts dropped by the int and after zero times |
| DiskIntervals.IntervalsRightThroughout | sd-idle/src/sd-idle-2.6.c:395-420 | in every run that sum is right after each transition if and only if no transition follows a time zero reached from a nonzero one and no two consecutive ones are too far apart for an int |
| DiskIntervals.IntervalsRight | sd-idle/src/sd-idle-2.6.c:395-420 | for nonnegative clocks that never go back by more than 2^31 seconds, the same condition decides the sum of the whole run |
| DiskIntervals.ZeroClockLoses | sd-idle/src/sd-idle-2.6.c:400-409 | a run over four concrete lines with a transition at time zero, after which the sum is wrong |
| DiskIntervals.LongGapWraps | sd-idle/src/sd-idle-2.6.c:395-409 | a run over four concrete lines in which a message names a negative interval and the sum is wrong |
| Daemon.Daemon.constructor | sd-idle/src/sd-idle-2.6.c:59-99 | the static initial values are the start state of the machine, every disk spinning |
| Daemon.Daemon.TransitionMessage | sd-idle/src/sd-idle-2.6.c:389-421 | records the new transition time of this disk only and announces the transition with the time since the old one |
| Daemon.Daemon.DiskIdle | sd-idle/src/sd-idle-2.6.c:423-442 | one idle observation of the machine for this disk, nothing for the others |
| Daemon.Daemon.DiskActive | sd-idle/src/sd-idle-2.6.c:444-461 | one active observation of the machine for this disk, nothing for the others |
| Daemon.Daemon.ReadLine | sd-idle/src/sd-idle-2.6.c:473-497 | the checks find exactly the accepted observation of the line; they let a line pass if and only if it names a managed disk, fits a slot and has a ninth column, and return disk, remainder and position of that column |
| Daemon.Daemon.ManageDiskstatsLine | sd-idle/src/sd-idle-2.6.c:463-504 | arrays and masks after a line are those of one step of the machine |
| Daemon.Daemon.ManagePass | sd-idle/src/sd-idle-2.6.c:524-526 | a pass over the lines is a run of the machine |
| Daemon.Daemon.Manage | sd-idle/src/sd-idle-2.6.c:506-532 | any number of passes is the run of the machine over all their lines, so messages and stops of all disks come in its order; every array entry, spin bit, message and stop of a disk is the one its history of accepted lines determines |
| Daemon.StopsCountStreaks | sd-idle/src/sd-idle-2.6.c:430-441 | in every run the stop commands for a disk number the streaks of its accepted lines that reach the threshold |
| Daemon.FlatInOrder | sd-idle/src/sd-idle-2.6.c:513-531 | the lines of the passes are taken in order |
| Options.TimeOptionExact | sd-idle/src/sd-idle-2.6.c:252-295 | a time option is taken if and only if its text is blanks, an optional sign and digits with nothing after; the time is then the value as an int holds it, raised to the minimum, and otherwise the default |
| Options.Blanks | sd-idle/src/sd-idle-2.6.c:259-282 | the characters skipped before a number are the six blanks of the C locale |
| CNumbers.DigitsValueAppend | sd-idle/src/sd-idle-2.6.c:259-282 | digits weigh ten times as much for each digit behind them |
| CNumbers.DigitsValueSmall | sd-idle/src/sd-idle-2.6.c:259-282 | a single digit is worth itself and a leading zero nothing |
| Options.HugeNumerals | sd-idle/src/sd-idle-2.6.c:259-282 | numerals beyond int: the nearest int with 32-bit long; with 64-bit long the low 32 bits, and -1 or 0 beyond long |
| Options.SettingHonoured | sd-idle/src/sd-idle-2.6.c:259-295 | a numeral sets the number written, raised to the minimum, if and only if the number is at most INT_MAX and, with a 64-bit long, is not a long below INT_MIN whose low 32 bits read above the minimum |
| Options.LowBitsTaken | sd-idle/src/sd-idle-2.6.c:259-270 | with a 64-bit long, -4294966296 and 4294968296 both set 1000 seconds |
| Options.TimeOptionOfNumeral | sd-idle/src/sd-idle-2.6.c:252-295 | any int written in decimal is taken at its value, raised to the minimum |
| Options.Options.SetDisks | sd-idle/src/sd-idle-2.6.c:212-250 | the mask comes to describe the disks selected by the option, whatever the order, repetition or validity of its characters; exit exactly for an empty mask |
| Options.Options.SetIdletime | sd-idle/src/sd-idle-2.6.c:252-273 | at least 300; the value of every numeral raised to 300; 900 for every other text |
| Options.Options.SetChecktime | sd-idle/src/sd-idle-2.6.c:275-295 | at least 5; the value of every numeral raised to 5; 30 for every other text |
| Options.Options.ParseOptions | sd-idle/src/sd-idle-2.6.c:297-342 | status 0 if and only if help or version stand anywhere; else status 1 if and only if the arguments are not options with their parameters, or some -d option after an inclusion leaves no disk; else the daemon, with the options applied in order |
| Options.ExpectedMeans | sd-idle/src/sd-idle-2.6.c:297-342 | the same of the function that specifies it |
| Options.ReadsRendered | sd-idle/src/sd-idle-2.6.c:321-341 | the second pass accepts exactly the argument lists that write down options with their parameters, and reads those options |
| Options.ReadAt | sd-idle/src/sd-idle-2.6.c:321-341 | accepted arguments are pairs of -d, -i or -c and a text, and the k-th option is the k-th pair |
| Options.AcceptedArguments | sd-idle/src/sd-idle-2.6.c:214-342 | the last -i and -c decide the times, with minima 300 and 5, or else 900 and 30; of the -d texts that concern a disk the last decides, by being an inclusion that names it; a disk that none concerns is managed |
| Options.DisksMean | sd-idle/src/sd-idle-2.6.c:223-243 | the fold over the -d options is that last decision, for every disk |
| Options.NoArguments | sd-idle/src/sd-idle-2.6.c:59-99 | without arguments all 26 disks are managed, with 900 and 30 seconds |
| Options.AcceptedSettings | sd-idle/src/sd-idle-2.6.c:214-295 | accepted settings respect the minima, and the managed set is the -d options in order: inclusion replaces, exclusion subtracts |
| Options.HighBits | sd-idle/src/sd-idle-2.6.c:221-243 | bits 26 to 31 of the mask stay set exactly as long as no option was an inclusion |
| Options.NoDisksExit | sd-idle/src/sd-idle-2.6.c:245-249 | the exit for an empty selection is taken exactly when a -d option leaves no disk and some -d option so far was an inclusion |
| Options.ExcludeEverything | sd-idle/src/sd-idle-2.6.c:223-249 | excluding all disks leaves none to manage and is accepted |
| SdIdle.ConfigurationMeans | sd-idle/src/sd-idle-2.6.c:214-342 | accepted arguments give times at or above their minima and a mask whose disks are exactly those the -d options select |
| SdIdle.StopsOfArguments | sd-idle/src/sd-idle-2.6.c:111-127 | from the arguments to the disk: in every run a selected disk is stopped once for each streak that reaches the threshold, and any other never |
| SdIdle.SdIdle | sd-idle/src/sd-idle-2.6.c:111-127 | the program exits as the arguments say, or its messages and stop commands are those of the run over all passes under the configuration of the arguments |
| UuCodec.EmitGroup | zork/files/uudecode.c:167-189 | a group yields its three bytes, or as many of them as are left |
| UuCodec.DecodeLine | zork/files/uudecode.c:160-190 | the loop writes the first n bytes of decoding all groups in full, n being the announced count |
| UuCodec.DecValue | zork/files/uudecode.c:160 | each of the 256 characters decodes to its distance from the space modulo 64 |
| UuCodec.CountZero | zork/files/uudecode.c:165-166 | the data ends at a line whose first character is a space, a backquote, or 0xA0 or 0xE0, and at no other |
| UuCodec.TripleNumber | zork/files/uudecode.c:169-175 | four characters of any kind and their three bytes write the same number, to base 64 and to base 256 |
| UuCodec.LineNumbers | zork/files/uudecode.c:160-190 | any line stands for as many bytes as its first character says, and each group of them leads the number its four characters write |
| UuCodec.SameDecoding | zork/files/uudecode.c:160-190 | the bytes of a line depend only on the decoded values of the characters up to the last one needed |
| UuCodec.LineRoundTrip | zork/files/uudecode.c:160-190 | decoding the historical encoding of 1 to 63 bytes gives the bytes, whatever follows on the line |
| UuCodec.Reencode | zork/files/uudecode.c:160-190 | encoding what a line decodes to gives back the line if and only if it is canonical: printable, zero padded, ended by its newline |
| UuProgram.CatLine | zork/files/uudecode.c:160-190 | the line #0V%T stands for Cat, both ways |
| Uudecode.Bcopy | zork/files/uudecode.c:140 | an overlapping copy moves the old contents |
| Uudecode.InsertHome | zork/files/uudecode.c:140-142 | home directory, slash, old tail and terminator stand at the start of the buffer, the rest of it untouched |
| Uudecode.RewritePath | zork/files/uudecode.c:120-143 | the rewriting succeeds exactly when the path resolves, stays inside the buffer and leaves the resolved path in it |
| Uudecode.TildePath | zork/files/uudecode.c:121-143 | ~user/tail resolves to the home directory, a slash and the tail, refused if and only if the user is unknown or the text and its terminator exceed 4096 characters |
| Uudecode.TildeBuffer | zork/files/uudecode.c:121-143 | the buffer then holds home directory, slash, tail and terminator, and behind them what the path, its first slash made a terminator, and the header line left |
| Uudecode.PlainPath | zork/files/uudecode.c:121 | a path without a tilde in front leaves the buffer as it is |
| Uudecode.OtherPaths | zork/files/uudecode.c:121-126 | a path without a tilde in front is taken as it is; one with a tilde and no slash is refused |
| Uudecode.Words | zork/files/uudecode.c:116-117 | the header word is "begin " at the start of a line, and the end line is "end" and a line feed as a C string |
| Uudecode.Decode | zork/files/uudecode.c:100-197 | return value and output are those of the specification over lines and old buffer contents |
| Uudecode.DecodeBody | zork/files/uudecode.c:153-196 | the same from the line after the header on |
| UuProgram.DecodeAccepts | zork/files/uudecode.c:110-197 | 0 is returned exactly for junk, a header, data lines, a line of count zero, `end`, and anything after, with a usable output file; otherwise 1 |
| UuProgram.Program | zork/files/uudecode.c:82-97 | the exit status is 0 exactly when every input can be opened and is accepted, and every input has its own output, one that decode writes for it |
| UuProgram.IndependentIffComplete | zork/files/uudecode.c:155-190 | the output of a line is independent of old buffer contents exactly when the line is long enough for its count |
| UuProgram.DecodeOutput | zork/files/uudecode.c:110-196 | with complete lines the output is that of the data lines alone; lines before the header and after the trailer play no part |
| UuProgram.DecodeWrites | zork/files/uudecode.c:110-197 | for every input, accepted or not: nothing without a header and a usable file; else each data line behind the header, whatever follows them, decoded over what header search, path and earlier lines left in the buffer |
| UuProgram.WritesContents | zork/files/uudecode.c:110-196 | for an accepted input with complete lines that output is the content of the data lines and nothing else |
| UuProgram.RoundTrip | zork/files/uudecode.c:110-196 | decoding the encoding of any chunks of 1 to 63 bytes returns 0 and writes exactly the bytes, also with backquotes for spaces |
| UuProgram.EncodeDecode | zork/files/uudecode.c:110-196 | any byte sequence encoded in lines of at most 45 bytes decodes to itself |
| MemPool.StepConserves | accel-ppp/patches/035-mempool-modern-atomics.patch:3-55 | every atomic step keeps allocated minus available, corrected by the updates owed, equal to the bytes handed out |
| MemPool.UpdateOrder | accel-ppp/patches/035-mempool-modern-atomics.patch:3-55 | counters change only after the movement, one at a time: one for alloc and free, allocated before available for clean and grow |
| MemPool.Conservation | accel-ppp/patches/035-mempool-modern-atomics.patch:3-55 | the same in every reachable state of every interleaving of any number of threads |
| MemPool.DifferenceExact | accel-ppp/patches/035-mempool-modern-atomics.patch:3-55 | the difference of the counters is exact if and only if the updates owed cancel, so whenever nothing is in flight |
| MemPool.AvailableBelowZero | accel-ppp/patches/035-mempool-modern-atomics.patch:3-33 | an interleaving of free and alloc takes the available counter below zero by any block size |
| MemPool.InterleavingIrrelevant | accel-ppp/patches/035-mempool-modern-atomics.patch:3-55 | runs that move the same blocks in the same order end, once quiet, with the same counters however their updates interleaved |
| MemPool.CountersMean | accel-ppp/patches/035-mempool-modern-atomics.patch:3-55 | with nothing in flight, allocated is the bytes mapped or malloced less those given back, and available is the bytes mapped and not handed out from there plus the bytes in the pools |
| MemPool.RunAccounts | accel-ppp/patches/035-mempool-modern-atomics.patch:3-55 | in every reachable state each counter has that meaning once the updates owed to it are added |
| MemPool.CounterSigns | accel-ppp/patches/035-mempool-modern-atomics.patch:3-55 | a counter is negative exactly while the updates owed to it exceed the bytes behind it; with nothing in flight neither is |
| MemPool.Pool.UpdateCounter | accel-ppp/patches/035-mempool-modern-atomics.patch:7-55 | the atomic counter updates of alloc, free, clean and grow, each one step of the machine |
| MemPool.Pool.Execute | accel-ppp/patches/035-mempool-modern-atomics.patch:3-55 | any schedule of actions is a run of the machine |
| MemPool.Pool.MempoolAlloc | accel-ppp/patches/035-mempool-modern-atomics.patch:3-24 | whatever other threads do in between, an allocation is a run of its two phases that leaves the thread idle and keeps the invariant; alone it lowers available by a pooled or carved block, or raises allocated by a fresh one |
| MemPool.Pool.MempoolFree | accel-ppp/patches/035-mempool-modern-atomics.patch:25-36 | the same for giving a block back to the system or to the pool; alone it changes one counter by the block's size |
| MemPool.Pool.MempoolClean | accel-ppp/patches/035-mempool-modern-atomics.patch:37-47 | the loop over the listed blocks it finds, whatever other threads do in each turn, is a run that leaves the thread idle and keeps the invariant; alone both counters fall by the bytes that leave the pools and the bytes handed out stay |
| MemPool.Pool.MmapGrow | accel-ppp/patches/035-mempool-modern-atomics.patch:48-57 | the same for new mapped memory; alone both counters and the mapped room rise by its size |
| AirPrint.Partition | airprint/files/airprint-generate.py:185-193 | the two lists are the preferred and the unknown formats |
| AirPrint.PreferredFormats | airprint/files/airprint-generate.py:71-83 | the formats to announce first, by name |
| AirPrint.SuppressedFormats | airprint/files/airprint-generate.py:84-100 | the formats never to announce, by name |
| AirPrint.SelectSubsequence | airprint/files/airprint-generate.py:188-193 | each list keeps the printer's order and contains exactly the formats of its class, so no suppressed one |
| AirPrint.PartitionConserves | airprint/files/airprint-generate.py:188-193 | preferred, unknown and suppressed formats together are the printer's formats with their multiplicities |
| AirPrint.Truncate | airprint/files/airprint-generate.py:198-205 | for any text the loop keeps as many comma-separated pieces as fit below 255, dropping the rest in reverse, and fails exactly when the first piece alone is too long |
| AirPrint.GeneratePdl | airprint/files/airprint-generate.py:184-210 | for any format names the record holds the longest fitting prefix of the announced list, a name with commas counting as its pieces; the list has no suppressed format, no unknown one before a preferred one, and each class as the printer orders it; the dropped pieces are the rest in reverse; the exact failure condition |
| AirPrint.AnnouncedExact | airprint/files/airprint-generate.py:188-198 | there is exactly one list with those properties, the one announced |
| AirPrint.SplitOfJoined | airprint/files/airprint-generate.py:198-204 | splitting the joined names gives the pieces of the names in order |
| AirPrint.PiecesWhole | airprint/files/airprint-generate.py:198-204 | the pieces are the names themselves if and only if no name contains a comma |
| AirPrint.TooLongFormat | airprint/files/airprint-generate.py:203-204 | one unknown format of 251 characters meets the failure condition, one of 250 does not |
| PrintBinary.PrintBinary | ltrace/patches/010-fix-reallocarray.patch:31-46 | for every 64-bit value the text is 0b and the shortest binary numeral of the value, written inside the buffer |
| PrintBinary.ShortestUnique | ltrace/patches/010-fix-reallocarray.patch:38-42 | there is only one such numeral |
| PrintBinary.SixSpelled | ltrace/patches/010-fix-reallocarray.patch:38-42 | the numeral of six is 110 |
| Stopwatch.PosixStopwatch.Elapsed | hlspxd/src/platform.h:107-113 | a running stopwatch reads within one millisecond of the time since its start |
| Stopwatch.PosixRounding | hlspxd/src/platform.h:112 | the reading is the whole milliseconds or one more, and exactly when it is one more |
| Stopwatch.PosixMonotone | hlspxd/src/platform.h:107-113 | the reading never goes back while the clock advances |
| Stopwatch.PosixGoodIff | hlspxd/src/platform.h:104-113 | it is good to a millisecond at all later times exactly when the start was not in second zero |
| Stopwatch.WindowsStopwatch.Elapsed | hlspxd/src/platform.h:70 | zero when stopped; else, at whatever times the two ticks were read, the time between them modulo 2^32 |
| Stopwatch.WindowsExact | hlspxd/src/platform.h:68-70 | across counter wraps the reading is the true span modulo 2^32, so exact if and only if the span is below 2^32 milliseconds |
| Stopwatch.WindowsGoodIff | hlspxd/src/platform.h:67-70 | a start is exact for all spans below 2^32 exactly when its tick count is not zero |
| Stopwatch.StopwatchesAgree | hlspxd/src/platform.h:63-114 | for clocks in order and a start that is not taken for stopped, the two readings of a span differ by at most one millisecond if and only if the tick counter, wraps included, advances by less than 2^32 |
| Stopwatch.LongSpanDisagrees | hlspxd/src/platform.h:63-114 | after 2^32 milliseconds one reads the span and the other zero |

## Left out

- Daemon.Daemon.DiskIdle: requires that the idle counter stays within INT_MAX, because signed overflow is undefined in C; `DiskHistory.SafeIffStreaksShort` says for which runs that holds.
- StatsLine.FindIoField: treats an empty remainder as having no columns; the C loop then looks one character past the terminator, which lines that end in a newline never cause.
- Daemon.Daemon.Manage: covers any finite number of passes; the program loops forever.
- Daemon: the slots of the cached lines are C strings held in an array of strings, not 160-byte arrays; that every string fits its slot is part of the class invariant.
- MemPool: the counters are integers without wrap-around, blocks keep one size, malloc succeeds, and the number and size of the mapped regions are left open: the mapped bytes not yet handed out are one amount, and what is left of a region when a new one is mapped stays usable. List layout and the locks are not part of this model. It admits more interleavings than the program: a block may be freed by another thread, and new memory used, before the thread that obtained it has updated the counters.
- UuProgram.EncodeDecode: takes the path that sscanf finds in the header line as given; the file mode is not modelled.
- Stopwatch: clock readings are integers; the 64-bit product of seconds and 1000 is taken not to overflow.
- sd-idle: the ioctl that stops a disk is an entry in the list of stop commands; warnings, usage text, daemonising, sleeping, opening `/proc/diskstats` and the kernel version check are not modelled.
- uudecode: getpwnam, opening files, error messages and input lines that contain more than the buffer holds; the lines are what fgets delivers.
- airprint-generate: CUPS, URIs, XML and file output; only the format list is modelled, and its length is counted in characters as the program does.
- ltrace: fputs and the choice of output format.
- mp707: USB reports, bus I/O and the sensor commands; only the CRC is visible in full.
- The Makefiles, path patches and start-up scripts of the feed: configuration without an algorithm.
