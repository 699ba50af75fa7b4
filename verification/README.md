# Verified model of the manager's core algorithms

Dafny models of the pieces of this C code base that carry real algorithmic content, with proofs about
them. Each `.dfy` file is one module; loops that update buffers, arrays or globals are methods and
classes proved against functions, and the functions carry the theorems.

| file | what it models |
|---|---|
| `ProcessTable.dfy` | the hash table behind the process list: linear probing, marking, in-place insertion, flush without tombstones |
| `CpuPercentages.dfy` | integer rounding of CPU counters |
| `ConfigText.dfy`, `ConfigRender.dfy`, `ConfigTable.dfy`, `ConfigFile.dfy`, `ConfigRows.dfy`, `ConfigApart.dfy`, `ConfigLoad.dfy`, `ConfigSays.dfy` | the configuration file: what a line means, writing and reading back a table, duplicate check and lookup, the line buffer and the counting pass, the buffer as rows that can run into each other, when they do not, the filling pass and the lookup of an option, and which option that is by the lines of the file |
| `TimeFormat.dfy`, `TimePieces.dfy` | the format-driven time printer and parser, and their texts piece by piece |
| `Calendar.dfy`, `MonthWeeks.dfy` | three day-number implementations and the week-of-month loops |
| `RingQueue.dfy` | the ring queue with its snapshot cursor and backup file |
| `TextPieces.dfy` | replace-all with exact pre-sizing, splitting and counting tokens |
| `Summary.dfy`, `SummaryText.dfy` | the summary printer, the tag reader and the summary readers, and their text and answers by the characters |
| `CpuEvents.dfy` | the two CPU event folds |
| `Templates.dfy`, `TemplateText.dfy` | expansion of `@..#` and `{..}` placeholders, and the text that comes out |
| `TlsQueues.dfy`, `TlsCodes.dfy` | the byte queues between the application, OpenSSL and the socket, and the result codes by the answers |
| `CStrings.dfy`, `CBuffers.dfy` | C division, `strstr`, `strtok` and `atoi`, and C strings in buffers, which several modules share |

Inputs stand for everything outside the program: directory listings and stat files are sequences of
entries, files are byte strings, a broken-down time replaces `localtime_r` and `mktime`, OpenSSL and the
socket are arbitrary answers, and a Boolean says whether an allocation or an `fopen` succeeded.

## Where the code differs from what its names or comments say

The models follow the code.

- The flush leaves broken probe chains, so a surviving process can be inserted a second time as if it
  were new; `ProcessTable.FoundAgain` says exactly when, `ProcessTable.GapDuplicates` what happens, and
  `ProcessTable.HistoryLost` shows a run that gets there.
- `p_active` is the number of processes seen, not the number listed; `ProcessTable.ActiveCount` says
  exactly when the two agree after a scan, and `ProcessTable.CountsAgree` for which selections they
  always do.
- A two-digit `YY` prints its tens digit twice, and a second year field is off by 1900;
  `TimeFormat.YearRoundTrip` gives the exact condition under which a year comes back.
- A configuration line of blanks becomes an item without a name, and an indented item loses its name to
  its option (`ConfigRender.BlankLineIsItem`, `ConfigRender.IndentLosesName`); long names come back only
  under the condition of `ConfigRender.EntryReadsBack`.
- A configuration line that fills its 256 bytes without a comment sign has no terminator and reads on into the
  next line, which a cut can then also end; `ConfigApart.FileApart` says exactly when every line still reads as
  its own text, and `ConfigLoad.NextLineTaken` shows a table that loads with a line appended to an option.
  Characters behind the 256th are dropped (`ConfigApart.HeldLines`).
- The closed form of the weekday function counts days correctly exactly from year 1 on
  (`Calendar.ClosedFormExact`).
- Counting separators and splitting at them agree exactly when no two separators overlap
  (`TextPieces.CountMatchesPieces`).
- A summary of more than 1023 characters is not cut but lost: `fcom_SubStr` is called with its two buffers
  exchanged, so the result stays empty and all readers see nothing (`Summary.StoreSummary`,
  `Summary.LongSummaryLost`, `Summary.LongNameLost`).
- A closing bracket in a value hides the rest of its section from the readers, and a value that holds another
  tag with its bracket answers for that tag (`Summary.TagExact`, `Summary.ClosingBracketHides`,
  `Summary.OpeningBracketMasks`).
- With counters that go back a figure can exceed 32 bits and is cut (`CpuPercentages.CastExact`,
  `CpuPercentages.CastCuts`).
- A `size` member in front of the values of a summary section leaves a comma in front of what the tag
  reader returns (`Summary.BodyIsQuoted`).

## Model

| member | source | states |
|---|---|---|
| ProcessTable.ProbeIsFirst | lib_src/linuxke/dap_linux.c:400-408 | the probe settles on a slot if and only if the slot is empty or holds the pid and no slot before it, in wraparound order from the hash, does |
| ProcessTable.RoomHalts | lib_src/linuxke/dap_linux.c:400-408 | with fewer occupied slots than slots every probe halts |
| ProcessTable.HaltsExactly | lib_src/linuxke/dap_linux.c:400-408 | a probe halts if and only if the table has an empty slot or holds the pid; otherwise it passes over every slot, round and round |
| ProcessTable.KnownOrRoom | lib_src/linuxke/dap_linux.c:391-408 | all probes of a scan halt when each pid it reads is in the table already or the slots occupied and the processes read before it are fewer than the slots |
| ProcessTable.FullHalts | lib_src/linuxke/dap_linux.c:391-408 | when every slot is occupied they halt if and only if every pid read is in the table |
| ProcessTable.KnownPidsHalt | lib_src/linuxke/dap_linux.c:391-408 | so a scan that reads only pids of the table halts at any number of processes |
| ProcessTable.FoundAgain | lib_src/linuxke/dap_linux.c:403-408 | a live pid is found again if and only if no empty slot lies between its hash and its slot |
| ProcessTable.SlotKept | lib_src/linuxke/dap_linux.c:391-436 | a scan leaves a slot alone as long as it does not read the pid in it |
| ProcessTable.HistoryKept | lib_src/linuxke/dap_linux.c:400-429 | a visible pid that has a slot is left in it at the end of the scan, its load computed against the ticks kept there, if and only if no empty slot lies on the way |
| ProcessTable.GapDuplicates | lib_src/linuxke/dap_linux.c:400-450 | when the probe for a visible pid settles on an empty slot in front of its own, the pid is inserted a second time: to the end of the scan both slots hold it, the old one untouched and the new one with a load computed from all its ticks, and the flush drops the old one |
| ProcessTable.GapReached | lib_src/linuxke/dap_linux.c:369-450 | such gaps are reached: from the empty table, two scans that read pids 2 and 2898 and then 2898 alone leave pid 2898 behind an empty slot |
| ProcessTable.HistoryLost | lib_src/linuxke/dap_linux.c:420-429 | after them any scan whose probes halt and that reads pid 2898 first computes its load from all its ticks, although every scan read it |
| ProcessTable.StepPlaced | lib_src/linuxke/dap_linux.c:400-430 | one directory entry keeps the slots with a state in exact correspondence with the visible processes read so far, whatever stale copies the other slots hold |
| ProcessTable.StepTallied | lib_src/linuxke/dap_linux.c:417-418 | one entry keeps the total, the count of each state and the table in agreement |
| ProcessTable.StepListed | lib_src/linuxke/dap_linux.c:431-435 | one entry keeps the active list equal to the seen slots that pass the selection, each once |
| ProcessTable.ScanMidway | lib_src/linuxke/dap_linux.c:391-436 | the same three facts after any number of further entries with distinct pids |
| ProcessTable.ScanMirrors | lib_src/linuxke/dap_linux.c:369-450 | one scan of any table leaves exactly the pids it read with a state, each in one slot with the data read, their number being the total, the sum of the state counts and the number of occupied slots |
| ProcessTable.ScanByLetter | lib_src/linuxke/dap_linux.c:277-436 | after a scan of any table the count of each state is the number of stat lines with its letter, R, S, D, Z, T and W being the states 1 to 6, and the total is the number of stat lines with any of the six |
| ProcessTable.ScanShows | lib_src/linuxke/dap_linux.c:277-450 | after it every occupied slot holds pid, owner, ticks and the state by letter of one of these stat lines, and each of them is in a slot |
| ProcessTable.ScanLists | lib_src/linuxke/dap_linux.c:431-435 | the active list is exactly the slots of processes that run or used the CPU, or of all when idle ones are shown, of the selected user or of all; each once |
| ProcessTable.RunMirrors | lib_src/linuxke/dap_linux.c:369-450 | the same after any number of scans with arbitrary distinct pids and read outcomes whose probes halt |
| ProcessTable.RoomyRuns | lib_src/linuxke/dap_linux.c:391-408 | the probes of a run of scans halt when any two consecutive ones together show fewer processes than there are slots |
| ProcessTable.ActiveCount | lib_src/linuxke/dap_linux.c:431-440 | after a scan of any table the active list is never longer than the reported active count, and as long if and only if every process left in the table passes the selection |
| ProcessTable.CountsAgree | lib_src/linuxke/dap_linux.c:431-440 | the two agree after every scan if and only if the selection shows idle processes of all users |
| ProcessTable.Machine.Find | lib_src/linuxke/dap_linux.c:400-408 | the probing loop ends, and in the slot of the specification |
| ProcessTable.Machine.MarkAllUnseen | lib_src/linuxke/dap_linux.c:369-374 | every slot loses its state and nothing else |
| ProcessTable.Machine.FlushUnseen | lib_src/linuxke/dap_linux.c:445-450 | exactly the slots without a state are emptied |
| ProcessTable.Machine.ReadEntry | lib_src/linuxke/dap_linux.c:400-435 | one turn of the directory loop on the globals is one step of the scan |
| ProcessTable.Machine.ReadDirectory | lib_src/linuxke/dap_linux.c:391-436 | the directory loop is the scan, and every write to the active list is inside it |
| ProcessTable.Machine.ScanProcesses | lib_src/linuxke/dap_linux.c:369-450 | mark, scan and flush on the globals give the scan of the old table |
| ProcessTable.Machine.GetProcessInfo | lib_src/linuxke/dap_linux.c:369-450 | besides, the table then mirrors what was read, the state counts and the total are those of the stat lines by letter, both reported counts are the number of processes seen, and the active list is as long if and only if all of them pass the selection |
| CpuPercentages.MoveCounters | lib_src/linuxke/dap_linux.c:593-608 | every counter is differenced against its old value, then becomes it, and the sum of the differences is returned |
| CpuPercentages.Percentages | lib_src/linuxke/dap_linux.c:581-625 | the outputs are the rounded tenths of a percent of the differences as 32-bit values, with 1 for a zero total |
| CpuPercentages.FiguresSpelled | lib_src/linuxke/dap_linux.c:581-625 | the differences are new minus old, modulo 2 to the 32 into the signed range for a counter that goes back; the divisor is their sum, or 1; each figure that fits 32 bits is nearest to 1000 times its difference over it |
| CpuPercentages.Nearest | lib_src/linuxke/dap_linux.c:616-621 | each quotient is the nearest integer: twice its error is at most the divisor |
| CpuPercentages.RoundingError | lib_src/linuxke/dap_linux.c:616-621 | the errors add up to at most half a unit a counter |
| CpuPercentages.CastExact | lib_src/linuxke/dap_linux.c:620 | for any difference and divisor of either sign the figure is stored as it is if and only if the rounded dividend stays below 2147483648 divisors on the positive side and below 2147483649 on the negative one |
| CpuPercentages.CastCuts | lib_src/linuxke/dap_linux.c:620 | counters that go back for which the first figure comes out negative |
| CpuPercentages.PercentagesBounded | lib_src/linuxke/dap_linux.c:581-625 | for counters that do not go back every figure is in 0..1000, all are 0 without change, and with change their sum misses 1000 by at most half the number of counters |
| CpuPercentages.FourStates | lib_src/linuxke/dap_linux.c:581-625 | for four CPU states the sum is 999 to 1002 |
| CpuPercentages.Telescopes | lib_src/linuxke/dap_linux.c:597-608 | over any sequence of calls the differences of a counter add up to last minus first |
| ConfigText.EntriesNumbered | lib_src/com/dap_update_cfg.c:402-452 | a filled table starts with a heading, and group numbers rise by one at each heading and stay in between |
| ConfigText.EntriesCount | lib_src/com/dap_update_cfg.c:402-452 | every counted line becomes one entry while the group limit is not reached |
| ConfigText.PassesAgree | lib_src/com/dap_update_cfg.c:54-465 | once the counting pass has succeeded, the filling pass succeeds if and only if there are at most 255 groups, and exactly then fills the number of entries that was counted, the first of them a heading |
| ConfigRender.HeadingReads | lib_src/com/dap_update_cfg.c:588-629 | a written heading reads back its name, whatever blanks and comments surround it |
| ConfigRender.SettingReads | lib_src/com/dap_update_cfg.c:631-686 | a written item reads back its name and its option, whatever separates and follows them |
| ConfigRender.EntryLoads | lib_src/com/dap_update_cfg.c:588-686 | a written line loads as the entry with its name cut to 31 characters, an item reading on into its option from there |
| ConfigRender.EntryReadsBack | lib_src/com/dap_update_cfg.c:588-686 | a written line comes back if and only if its name fits: at most 31 characters for a heading; for an item at most 30, or the option is what the name has behind its 31st character |
| ConfigRender.TableLoads | lib_src/com/dap_update_cfg.c:402-452 | a whole written table with comment and empty lines between its lines loads as these entries, in order, with their groups and line numbers |
| ConfigRender.KeptIsMeant | lib_src/com/dap_update_cfg.c:402-452 | these are the entries that were written if and only if all names fit |
| ConfigRender.TableReadsBack | lib_src/com/dap_update_cfg.c:402-452 | a whole written table with comment and empty lines between its lines is recovered if and only if all its names fit: names, options, order, groups and line numbers |
| ConfigRender.LinesMatch | lib_src/com/dap_update_cfg.c:130-158 | the counted lines of a written table are as many as its entries, with the same headings |
| ConfigRender.BlankLineIsItem | lib_src/com/dap_update_cfg.c:477-491 | a line of blanks counts, and becomes an item with an empty name and option |
| ConfigRender.IndentLosesName | lib_src/com/dap_update_cfg.c:644-656 | an item, with or without a trailing comment, keeps its name if and only if it is not indented; an indented one keeps it as the start of its option |
| ConfigTable.CheckGroups | lib_src/com/dap_update_cfg.c:223-262 | fails if and only if some heading's name recurs in a later entry of any kind |
| ConfigTable.CheckItems | lib_src/com/dap_update_cfg.c:267-306 | fails if and only if some item's name recurs later in its group |
| ConfigTable.AcceptedExactly | lib_src/com/dap_update_cfg.c:212-309 | on a numbered table there are no duplicates if and only if no heading recurs in a later entry of any kind and any two items of one name have a heading between them |
| ConfigTable.SameGroup | lib_src/com/dap_update_cfg.c:402-452 | two entries carry one group number if and only if no heading comes after the first up to the second |
| ConfigTable.DuplicationCheck | lib_src/com/dap_update_cfg.c:212-309 | so does the method on the array: 0 if and only if both hold, else -1 |
| ConfigTable.LookupLoops | lib_src/com/dap_update_cfg.c:707-748 | the two search loops find the first heading with the name and the first item of its group with the name |
| ConfigTable.LookupIsNested | lib_src/com/dap_update_cfg.c:689-749 | on every accepted table that search is lookup in the nested map from group to item to option, with -1 for a missing group and -2 for a missing item |
| ConfigTable.LookupSays | lib_src/com/dap_update_cfg.c:689-749 | on an accepted table the option is that of the item behind the heading with no heading in between; -2 when the heading has no such item, -1 without such a heading |
| ConfigFile.GetLineCount | lib_src/com/dap_update_cfg.c:494-525 | one more than the newlines before the end of input, or -1 without a file |
| ConfigFile.FillRows | lib_src/com/dap_update_cfg.c:100-128 | for every content of the file all writes stay inside the buffer, which then holds each line in its own 256 bytes without carriage returns |
| ConfigFile.RowsOfText | lib_src/com/dap_update_cfg.c:100-128 | a file made of lines of any length, carriage returns anywhere, is read as these lines, each up to its 256th character |
| ConfigFile.LinesAreText | lib_src/com/dap_update_cfg.c:100-128 | any lines without carriage returns and 0xFF bytes can be written to such a file |
| ConfigFile.RowsBounded | lib_src/com/dap_update_cfg.c:100-128 | no row holds more than 256 characters |
| ConfigFile.GetComment | lib_src/com/dap_update_cfg.c:467-492 | finds whether the row is a comment or empty |
| ConfigFile.ChkItem | lib_src/com/dap_update_cfg.c:562-586 | finds whether the row is a heading |
| ConfigFile.CutComment | lib_src/com/dap_update_cfg.c:527-560 | cuts the row in place at its comment and drops trailing blanks, leaving the rest of the buffer as specified |
| ConfigFile.CutAtGives | lib_src/com/dap_update_cfg.c:527-560 | the row that remains is the text before the comment without trailing blanks |
| ConfigFile.TestParser | lib_src/com/dap_update_cfg.c:54-176 | for every content of the file the counting pass stays inside its buffer and returns the number of lines that count; -6 for an item before a heading, -2 for a missing file, -3 for 3000 newlines or more before its end |
| ConfigRows.LinesOfFile | lib_src/com/dap_update_cfg.c:130-158 | for every content of the file the lines that count are those read off its rows one after the other, a row of 256 characters running on into the next ones and each cut also ending the rows it runs into |
| ConfigApart.ReadsTheSame | lib_src/com/dap_update_cfg.c:467-560 | a text without a comment sign reads the same with more text behind it if and only if that is blanks up to its end or first comment sign, or nothing when the text is blank itself |
| ConfigApart.RowsApart | lib_src/com/dap_update_cfg.c:130-158 | the lines read off any rows are those of the rows taken one by one if and only if, behind every row of 256 characters without a comment sign, the next row is empty, starts with its comment sign, is an indented comment behind a solid end or is blank behind a blank end; behind such a row of blanks, the next row is empty, or starts with its comment sign when a further full row stands in front |
| ConfigApart.FileApart | lib_src/com/dap_update_cfg.c:54-176 | so for every content of a file: its counted lines are those of its rows taken one by one, each up to its first zero byte, if and only if the rows are apart in this sense |
| ConfigApart.HeldLines | lib_src/com/dap_update_cfg.c:100-128 | cutting lines to 256 characters keeps what counts of them if and only if each longer one has a comment sign among its first 256 characters, or something solid among them and only blanks behind them up to its comment sign or end |
| ConfigLoad.FillGroup | lib_src/com/dap_update_cfg.c:588-629 | a heading's entry holds its name, with the overflow of long names into the option field |
| ConfigLoad.FillItem | lib_src/com/dap_update_cfg.c:631-686 | an item's entry holds its name and option, with the same overflow |
| ConfigLoad.LoadFromFills | lib_src/com/dap_update_cfg.c:402-452 | the filling pass, entry by entry, ends with the entries of the lines, or with -7 for an item before every heading or -6 at the 256th heading |
| ConfigLoad.LoadParser | lib_src/com/dap_update_cfg.c:311-465 | the filling pass writes exactly the entries of the counted lines, in order, inside the array; -2 and -3 as the counting pass, -7 for an item before a heading, -6 for more than 255 headings |
| ConfigLoad.ConfigGetValue | lib_src/com/dap_update_cfg.c:689-749 | from file bytes to result: the option in the nested map of the file, -1 or -2 |
| ConfigLoad.ApartFits | lib_src/com/dap_update_cfg.c:311-465 | a file whose rows are apart overflows no text field, so it can be loaded |
| ConfigLoad.OverflowFillsRow | lib_src/com/dap_update_cfg.c:311-465 | a file that overflows a text field has a line of at least 256 characters without a comment sign among the first 256 |
| ConfigLoad.ShortIsClear | lib_src/com/dap_update_cfg.c:100-158 | lines of fewer than 256 characters, or with a comment sign among the first 256, are all kept and apart |
| ConfigLoad.WrittenLines | lib_src/com/dap_update_cfg.c:100-158 | lines of any length that were written to a file: its rows are their first 256 characters, read one by one if and only if these are apart, and as the whole lines if and only if each of them is kept |
| ConfigLoad.FileReadsBack | lib_src/com/dap_update_cfg.c:311-465 | a file that a table was written to, carriage returns and comment lines of any length anywhere, loads exactly that table if and only if all its names fit, provided there are at most 255 headings and the lines are kept by the cut to 256 characters and apart |
| ConfigLoad.FileLooksUp | lib_src/com/dap_update_cfg.c:689-749 | for such a file of any well-formed table the result is that of the entries kept of it: -1 without a heading in front or over 3000 lines, -2 over 255 groups or with duplicates, else lookup in the nested map |
| ConfigLoad.LookUpWritten | lib_src/com/dap_update_cfg.c:689-749 | the lookup on the bytes of such a file gives that result |
| ConfigLoad.OptionTakes | lib_src/com/dap_update_cfg.c:631-686 | the option of an item that fills its row is loaded with what stands behind the row up to the next comment sign or terminator |
| ConfigLoad.NextLineTaken | lib_src/com/dap_update_cfg.c:311-465 | a concrete table whose lines fit their rows and whose names fit, its second line of exactly 256 characters: it loads as another table, in which the third line stands behind the option of the second as well |
| ConfigSays.GoodSpelled | lib_src/com/dap_update_cfg.c:467-686 | which characters a line of a table may have: comments, headings and items by their stars, blanks, tabs and comment signs |
| ConfigSays.ReadableSpelled | lib_src/com/dap_update_cfg.c:100-128 | a file is read up to its first byte 255 |
| ConfigSays.NewlinesSpelled | lib_src/com/dap_update_cfg.c:494-525 | what is counted is the number of newlines |
| ConfigSays.LookUpTable | lib_src/com/dap_update_cfg.c:689-749 | the lookup in a file that a table was written to: -1 for more than 3000 lines or an item before every heading, else what the next two lemmas say |
| ConfigSays.TableRefused | lib_src/com/dap_update_cfg.c:54-465 | by the lines the table was written with: -2 for more than 255 headings, for a heading whose kept name recurs in a later line, and for two items of one kept name without a heading between them |
| ConfigSays.TableAccepted | lib_src/com/dap_update_cfg.c:689-749 | in every other table each item is found under the kept names of its heading and its own with its own option, -2 when the section has no such item, -1 without the heading |
| TimeFormat.FieldReadBack | lib_src/com/dap_time.c:105-205 | what the parser makes of each field the printer wrote |
| TimeFormat.Lockstep | lib_src/com/dap_time.c:89-217 | printer and parser walk any format in step, the parser meeting each field where the printer put it |
| TimeFormat.ClockRoundTrip | lib_src/com/dap_time.c:219-351 | for every format, parsing what was printed restores every mentioned field but the year, and leaves the others zero |
| TimeFormat.YearRoundTrip | lib_src/com/dap_time.c:312-340 | the year comes back if and only if the last year field is `YYYY` and the years that further fields add are undone by wraps of the thousands digit, or it is `YY` and the year is 1900 plus a multiple of 11 below 100, or there is none and it is 1900 |
| TimeFormat.SingleYearField | lib_src/com/dap_time.c:312-340 | below year 80000 a `YYYY` year survives if and only if it is the only year field |
| TimeFormat.RoundTrip | lib_src/com/dap_time.c:219-351 | with at most one year field, written `YYYY`, a time of year 0 to 9999 comes back whole |
| TimeFormat.RestoreYear | lib_src/com/dap_time.c:312-340 | the year read back is decided by the last year field and the number of year fields, each adding 1900 |
| TimeFormat.Time2Str | lib_src/com/dap_time.c:219-351 | the printing loop writes the text of the specification and a terminator, and nothing behind it; which letters are which field is `TimePieces.TimeText` |
| TimeFormat.Str2Time | lib_src/com/dap_time.c:89-217 | the parsing loop is the parse of the specification; which letters are which field is `TimePieces.TimeOfText` |
| TimePieces.TimeText | lib_src/com/dap_time.c:219-351 | for a format of literal characters and fields with at most one year field the buffer holds the literals as they are, two digits of second, minute, hour, day and month from 1 for `ss`, `mm`, `hh`, `DD` and `MM`, four of the year for `YYYY`, and twice its tens digit for `YY` |
| TimePieces.TimeOfText | lib_src/com/dap_time.c:89-217 | the text under these letters, digits, is read into the same fields: the last piece of a field counts, the month less 1, a `YYYY` year less 1900, a field without a piece is 0 |
| TimePieces.Stamp | lib_src/com/dap_time.c:219-351 | "YYYYMMDDhhmmss" prints year, month, day, hour, minute and second in this order |
| TimePieces.TimeOfStamp | lib_src/com/dap_time.c:89-217 | fourteen digits are read by it as a year of four and five numbers of two digits, in this order |
| Calendar.ToDay | lib_src/com/dap_time.c:692-711 | the day number by the Gregorian rules, and by that formula |
| Calendar.GetDaysTo | lib_src/com/dap_time.c:656-684 | the day number of a YYYYMMDD text, and for eight digits that formula in the numbers they say |
| Calendar.GetDayOfWeek | lib_src/com/dap_time.c:450-492 | the truncating remainder by 7 of the closed-form day total of a YYYY-MM-DD text; from year 1 the day number modulo 7 |
| Calendar.WeekdayOfText | lib_src/com/dap_time.c:450-492 | the weekday of ten characters YYYY-MM-DD from year 0001 on as one formula in the digits, modulo 7 |
| Calendar.MonthsClosed | lib_src/com/dap_time.c:651-711 | the days before a month are (367m - 362) / 12, less one or two behind February |
| Calendar.NumberClosed | lib_src/com/dap_time.c:692-711 | the day number of any date as one formula in year, month and day, without a table of months; a year or month below 1 counts as 1 |
| Calendar.ClosedFormCounts | lib_src/com/dap_time.c:483 | from year 1 the closed form is the sum of the lengths of the years before |
| Calendar.ClosedFormExact | lib_src/com/dap_time.c:483 | it is so if and only if the year is at least 1 |
| Calendar.CompactReads | lib_src/com/dap_time.c:656-672 | YYYYMMDD text reads back its date |
| Calendar.CompactSays | lib_src/com/dap_time.c:656-672 | any eight digits are read as a year of four, a month and a day of two |
| Calendar.DashedReads | lib_src/com/dap_time.c:450-481 | YYYY-MM-DD text reads back its date |
| Calendar.DashedSays | lib_src/com/dap_time.c:450-481 | so are digits in the form YYYY-MM-DD |
| Calendar.Agree | lib_src/com/dap_time.c:450-711 | on every valid date with a four-digit year both loops give the same day number, and the weekday is that number modulo 7 |
| Calendar.DayNumbersOrdered | lib_src/com/dap_time.c:692-711 | day numbers are ordered as the dates are, and equal only for equal dates |
| Calendar.NextDayIsOneMore | lib_src/com/dap_time.c:692-711 | the next calendar day is one more, across month, year and century ends |
| Calendar.DateOfNumber | lib_src/com/dap_time.c:692-711 | every positive number is the day number of the date reached by counting days |
| Calendar.NumberOfDate | lib_src/com/dap_time.c:692-711 | counting days to the number of a date reaches that date |
| Calendar.Period400 | lib_src/com/dap_time.c:651-654 | 400 years are 146097 days, so weekdays repeat |
| Calendar.DiffDay | lib_src/com/dap_time.c:713-717 | the difference of the two day numbers |
| Calendar.GetRelativeDate | lib_src/com/dap_time.c:686-690 | the distance of two dates in days whichever is first, zero for valid dates only when they are equal |
| Calendar.DifferenceCountsDays | lib_src/com/dap_time.c:713-717 | the difference is k if and only if k calendar days lead from the first date to the second |
| MonthWeeks.GetDayOfMonth | lib_src/com/dap_time.c:505-527 | the backward walk gives (wday - (mday - 1)) mod 7, the first weekday from which the day falls on wday |
| MonthWeeks.FirstSunday | lib_src/com/dap_time.c:548-561 | the search ends on the first Sunday, within a week |
| MonthWeeks.GetWeekOfMonth | lib_src/com/dap_time.c:534-574 | the week is one more than the number of Sundays up to and including the day, which is 1 + (first + mday - 1) / 7, and one more when the month begins on a Sunday |
| MonthWeeks.WeekHoldsOne | lib_src/com/dap_time.c:564-573 | seven days from a Sunday hold one Sunday and the next is seven days later |
| MonthWeeks.FirstIsCalendarFirst | lib_src/com/dap_time.c:505-527 | from the calendar's weekday of a date the walk ends on the calendar's weekday of the 1st |
| MonthWeeks.WeekStepsOnSundays | lib_src/com/dap_time.c:534-574 | within a month the week steps if and only if the next day is a Sunday of the calendar |
| RingQueue.PutRefines | lib_src/ipc/dap_sQueue.c:127-145 | Put is append on the bounded FIFO and fails exactly when it is full |
| RingQueue.PutSays | lib_src/ipc/dap_sQueue.c:127-145 | with fewer records than cells less one, Put gives 0 and appends; else it gives -1 and changes nothing |
| RingQueue.GetRefines | lib_src/ipc/dap_sQueue.c:215-234 | Get is removal of the oldest record and fails exactly when there is none |
| RingQueue.GetSays | lib_src/ipc/dap_sQueue.c:215-234 | Get gives the first record and removes it, or nothing when there is none |
| RingQueue.ReadRefines | lib_src/ipc/dap_sQueue.c:236-256 | Read gives what the cell of the next snapshot position holds now |
| RingQueue.RunRefines | lib_src/ipc/dap_sQueue.c:89-281 | every run of operations on one ring gives the outputs of the bounded FIFO |
| RingQueue.SessionRefines | lib_src/ipc/dap_sQueue.c:19-281 | so does every session in which Init may come at any point with any capacity |
| RingQueue.WidthIsLength | lib_src/ipc/dap_sQueue.c:258-281 | the counter is the length of the queue and (rear - front) mod qnum; full and empty are length qsiz and 0 |
| RingQueue.RunConserves | lib_src/ipc/dap_sQueue.c:127-234 | over every run, contents before and records accepted are records handed out and contents after, in order |
| RingQueue.SnapshotRead | lib_src/ipc/dap_sQueue.c:89-256 | after a reset the next Read gives the next record of the snapshot exactly while the Puts since do not exceed the cells outside it plus the records replayed; past that it gives a record put since |
| RingQueue.SnapshotReplay | lib_src/ipc/dap_sQueue.c:236-256 | with at most qsiz + 1 - w Puts in between, the Reads replay a prefix of the queue as it stood, whatever Gets occur |
| RingQueue.PutAllAppends | lib_src/ipc/dap_sQueue.c:148-181 | loading appends the records that fit and drops the rest |
| RingQueue.SaveWritesContents | lib_src/ipc/dap_sQueue.c:96-124 | saving writes exactly the contents and moves only the snapshot cursor |
| RingQueue.RecordsOfBytes | lib_src/ipc/dap_sQueue.c:162-176 | the whole records of a written file are the records written, a torn tail being dropped |
| RingQueue.BytesLength | lib_src/ipc/dap_sQueue.c:96-181 | every record takes 204804 bytes of the file |
| RingQueue.LoadRestores | lib_src/ipc/dap_sQueue.c:148-181 | Init and load restore a saved queue, or its first qsiz records |
| RingQueue.SaveInitLoad | lib_src/ipc/dap_sQueue.c:19-181 | save, then Init, then load gives a queue its contents back, or its first qsiz records |
| RingQueue.SQueue.SQInit | lib_src/ipc/dap_sQueue.c:19-87 | the globals are those of an empty ring, or no array when there is no memory |
| RingQueue.SQueue.SQPut | lib_src/ipc/dap_sQueue.c:127-145 | the array operation is Put: -2 without an array, -1 when only one cell is free, else 0 |
| RingQueue.SQueue.SQGet | lib_src/ipc/dap_sQueue.c:215-234 | the array operation is Get |
| RingQueue.SQueue.SQRead | lib_src/ipc/dap_sQueue.c:236-256 | the array operation is Read |
| RingQueue.SQueue.SQSaveQ | lib_src/ipc/dap_sQueue.c:96-124 | the file holds the drained snapshot; the error codes of each missing piece |
| RingQueue.SQueue.SQLoadQ | lib_src/ipc/dap_sQueue.c:148-181 | every whole record read before an error is put; the error codes |
| RingQueue.Restart | lib_src/ipc/dap_sQueue.c:19-181 | the three calls on the globals do so |
| TextPieces.SplitJoins | lib_src/com/dap_string.c:94-132 | splitting loses nothing |
| TextPieces.SplitLeftmost | lib_src/com/dap_string.c:94-132 | splitting cuts at the leftmost non-overlapping occurrences |
| TextPieces.SplitOfJoin | lib_src/com/dap_string.c:94-132 | it is the only such division: pieces cut at first occurrences are what splitting their join gives back |
| TextPieces.ReplacedJoins | lib_src/com/dap_string.c:169-183 | the writing pass replaces exactly the leftmost non-overlapping occurrences |
| TextPieces.SizeExact | lib_src/com/dap_string.c:163 | the size in wrapping size_t arithmetic is the true size, also when the text shrinks |
| TextPieces.SizeIsResult | lib_src/com/dap_string.c:144-163 | the counting pass asks for exactly the bytes of the result and its terminator in the growing, shrinking and equal case |
| TextPieces.CountPass | lib_src/com/dap_string.c:144-160 | the counting pass ends at the end of the text with the number of matches |
| TextPieces.WriteReplaced | lib_src/com/dap_string.c:169-183 | the writing pass fills the buffer exactly |
| TextPieces.ReplaceAll | lib_src/com/dap_string.c:134-189 | the result is the split of the input joined with the new text, for every input and non-empty pattern |
| TextPieces.ParseStringByToken | lib_src/com/dap_string.c:94-132 | the piece of the given number, if there is one |
| TextPieces.TokenCnt | lib_src/com/dap_string.c:267-278 | the number of offsets at which the mark occurs |
| TextPieces.CountMatchesPieces | lib_src/com/dap_string.c:267-278 | the count is at least the number of pieces less one, and equal if and only if no two marks overlap |
| TextPieces.CountIsLastPiece | lib_src/com/dap_string.c:94-278 | for a one-character mark the count is the number of the last piece |
| Summary.GetSummaryFt | lib_src/json/dap_json_parse.c:911-976 | the result buffer holds the printed summary of the nested sections when it has at most 1023 characters, and is left as it was otherwise |
| Summary.AppendSections | lib_src/json/dap_json_parse.c:931-972 | the section loop leaves the printed text in the local buffer |
| Summary.SubStr | lib_src/com/dap_string.c:280-295 | characters of the third argument go to the front of the fourth |
| Summary.StoreSummary | lib_src/json/dap_json_parse.c:468-482 | the caller with its zeroed buffer gets the printed summary if and only if it has at most 1023 characters, and nothing otherwise |
| SummaryText.StoredText | lib_src/json/dap_json_parse.c:911-976 | the printed text character by character: the key of a section when it is one of the four tags of the kind, then in brackets the quoted values with commas between them, the caller getting it when it has at most 1023 characters, else nothing |
| Summary.GetTagValue | lib_src/com/dap_string.c:407-450 | the text between a tag and the next closing mark goes to the front of the buffer, cut to one less than the buffer when longer, and nothing else is written; the position behind it is returned |
| Summary.TagOfSummary | lib_src/com/dap_string.c:407-450 | reading any printed summary gives for each known tag the text behind the first `tag(` in a value printed before its section, if there is one; else what its section printed between its brackets up to the first closing one; else nothing |
| Summary.TagExact | lib_src/com/dap_string.c:407-450 | the reader gets exactly what the section printed if and only if no earlier value holds `tag(` and the section holds no closing bracket, or the text behind that `tag(` happens to be the same |
| Summary.PlainUnmasked | lib_src/com/dap_string.c:407-450 | values without brackets meet that condition |
| Summary.BodyIsQuoted | lib_src/json/dap_json_parse.c:952-970 | that text is the quoted comma-joined values if and only if no `size` member stands in front of a value |
| Summary.ReadTag | lib_src/json/dap_json.c:675-690 | the C string every reader works on |
| Summary.ReaderFinds | lib_src/json/dap_json.c:675-720 | a word without quotes is found under a tag of what the caller got if and only if the summary was not too long and the word stands behind an earlier `tag(` or, without one, in the values of the section in front of the first closing bracket |
| Summary.ReaderSays | lib_src/json/dap_json.c:675-720 | with no earlier `tag(` and no closing bracket in the section that is when a value of the section contains the word |
| Summary.FrontIsSaid | lib_src/json/dap_json.c:675-720 | what stands in front of the first closing bracket is contained in a value, and the other way round when there is no such bracket |
| Summary.ProcessReaders | lib_src/json/dap_json.c:987-1108 | the four process readers answer by these findings for every object, and as for an empty one when the summary is too long |
| Summary.ChangeReaders | lib_src/json/dap_json.c:675-720 | so do the two readers of change summaries |
| SummaryText.SaysSpelled | lib_src/json/dap_json.c:675-720 | a section says a word when the word stands at some place in a value, other than a `size`, of the first section of the key that has members |
| SummaryText.ProcessAnswers | lib_src/json/dap_json.c:987-1108 | the four process readers answer 1, -1, 2 or 0 for `[off]`, `[on]` and `[kill]` under their tags, for every object with values without brackets whose summary is not too long |
| SummaryText.ChangeAnswers | lib_src/json/dap_json.c:675-720 | so do the two readers of change summaries for `add` and `mod` |
| Summary.LongSummaryLost | lib_src/json/dap_json_parse.c:973-974 | past 1023 characters all six readers answer as if nothing had been reported |
| Summary.LongNameLost | lib_src/json/dap_json_parse.c:973-974 | a concrete object: its printed summary reports an addition, what the caller gets does not |
| Summary.ClosingBracketHides | lib_src/com/dap_string.c:429-437 | a value `a)[off]` of the white list: the section says off, its reader does not find it |
| Summary.OpeningBracketMasks | lib_src/com/dap_string.c:414-421 | a value `white([off]` of the black list: nothing says off for the white list, its reader finds it |
| CpuEvents.HistoryFold | lib_src/json/dap_json.c:1176-1190 | without a body the last event of the history decides, if and only if there is one |
| CpuEvents.BodyFold | lib_src/json/dap_json.c:1191-1221 | with a body an on-event in it decides, else the first event of the history |
| CpuEvents.CpuEvent | lib_src/json/dap_json.c:1169-1281 | both folds: the deciding event in each case, and 0 if and only if there is no event of the history and no on-event in the body |
| CpuEvents.AlarmCpuUsage | lib_src/json/dap_json.c:1169-1221 | status 5 sets and status 6 takes back, ignoring the agent itself: the last one of the history without a body, else 1 for any 5 in the body, else the first one of the history |
| CpuEvents.ControlCpuUsage | lib_src/json/dap_json.c:1223-1281 | the same for the statuses 2 and 3 |
| CpuEvents.SomeEvent | lib_src/json/dap_json.c:1169-1281 | a history has a first and a last event if and only if it has any |
| Templates.ClosedHasPieces | lib_src/com/dap_report.c:2079-2106 | every template whose placeholders close in reach is made of literals and placeholders |
| Templates.ExpandRenders | lib_src/com/dap_report.c:2079-2106 | expansion interleaves the literals with the values in order, erases surplus placeholders and never rescans inserted text |
| Templates.HeaderExpansion | lib_src/com/dap_report.c:2065-2112 | so does the expansion of every closed template |
| Templates.ExpandInto | lib_src/com/dap_report.c:2079-2106 | the loop over the two buffers is that expansion, and `j` its length |
| Templates.ReportHeaderFilter | lib_src/com/dap_report.c:2065-2112 | the buffer then holds the expansion and the result is its length |
| TemplateText.HeaderText | lib_src/com/dap_report.c:2065-2112 | for a header of literals and placeholders, from an @ over a # within the next 19 characters or over 21 characters, the buffer holds the literals as they are, the first placeholder replaced by the chart, the second by the utilities, further ones by nothing |
| Templates.NamesRender | lib_src/db/dap_checkdb.c:47-83 | name expansion is the fold over the pieces of the statement |
| Templates.NamesSettled | lib_src/db/dap_checkdb.c:54-75 | after CREATE TABLE, and once the index name is out, every placeholder gets the full name |
| Templates.NamesFixed | lib_src/db/dap_checkdb.c:54-75 | the first placeholder gets the full name if the output in front of it starts with CREATE TABLE, else the index name; every later one gets the full name |
| Templates.StatementExpansion | lib_src/db/dap_checkdb.c:35-88 | so for every closed statement, by its text in front of the first placeholder, however short |
| Templates.ExpandNamesInto | lib_src/db/dap_checkdb.c:47-83 | the loop over the two buffers is name expansion |
| Templates.NameFilter | lib_src/db/dap_checkdb.c:35-88 | the statement buffer then holds the expansion |
| TemplateText.StatementText | lib_src/db/dap_checkdb.c:35-88 | for a statement of literals and placeholders the first one becomes the full name when the text in front starts with CREATE TABLE in letters of either case, else what stands between the first and the second dot of the name; later ones become the full name |
| TlsQueues.EncryptKeeps | proc_inc/openssl_common.h:260-296 | over any answers of SSL_write and the BIO, bytes accepted and bytes waiting stay all bytes queued, and likewise for the socket side |
| TlsCodes.EncryptFails | proc_inc/openssl_common.h:260-296 | the result is -1 if and only if an answer comes that fails or whose last read of the BIO must not be retried, before the queue is empty or another one has ended the loop |
| TlsCodes.EncryptSucceeds | proc_inc/openssl_common.h:260-296 | it is 0 if and only if the queue is empty first, or SSL_write takes nothing without failing, or the last read of the BIO gives 0 |
| TlsCodes.EncryptOne | proc_inc/openssl_common.h:260-296 | the bytes one answer takes leave the front of the queue, and those the BIO then gives are queued for the socket |
| TlsQueues.OnReadKeeps | proc_inc/openssl_common.h:205-256 | so over any answers while incoming bytes are processed |
| TlsCodes.OnReadFails | proc_inc/openssl_common.h:205-256 | the result is -1 if and only if a turn fails before the bytes are used up and before another one has failed or paused: it takes nothing, or its handshake or what follows fails or wants I/O without a retry |
| TlsCodes.OnReadSucceeds | proc_inc/openssl_common.h:205-256 | it is 0 if and only if turns that neither fail nor pause took all the bytes, or one paused first: its handshake neither failed nor finished |
| TlsCodes.OnReadWaits | proc_inc/openssl_common.h:205-256 | the answers end without a result if and only if none fails or pauses and they took fewer bytes |
| TlsCodes.OnReadOne | proc_inc/openssl_common.h:205-256 | what one turn queues: the output of the handshake, and of what follows once that is finished |
| TlsCodes.OnReadMore | proc_inc/openssl_common.h:205-256 | further turns go on from there, and are not looked at once there is a result |
| TlsCodes.HandshakeExact | proc_inc/openssl_common.h:180-202 | the status of a handshake step is that of OpenSSL, except that wanting I/O without a retry is a failure; the output is queued exactly when I/O is wanted |
| TlsQueues.SockWriteKeeps | proc_inc/openssl_common.h:323-336 | so over full, partial and failed socket writes |
| TlsQueues.RunKeeps | proc_inc/openssl_common.h:139-336 | over any run both queues conserve and the histories only grow |
| TlsQueues.RunQueues | proc_inc/openssl_common.h:139-146 | the bytes queued in a run are exactly those the application sent |
| TlsQueues.RunDrains | proc_inc/openssl_common.h:149-296 | over any run the bytes drained are exactly those in the BIO answers that the source asked for, in order |
| TlsQueues.RunConserves | proc_inc/openssl_common.h:139-336 | in every reachable state accepted followed by waiting bytes are the bytes sent by the application, and bytes on the wire followed by waiting ones are those drained from the BIO |
| TlsQueues.EndToEnd | proc_inc/openssl_common.h:139-336 | both queues from end to end: accepted and waiting bytes are those the application sent, bytes on the wire and waiting ones are those the BIO delivered |
| TlsQueues.TlsClient.SendUnencryptedBytes | proc_inc/openssl_common.h:139-146 | the buffer grows by the bytes |
| TlsQueues.TlsClient.QueueEncryptedBytes | proc_inc/openssl_common.h:149-155 | the buffer grows by the bytes |
| TlsQueues.TlsClient.DoEncrypt | proc_inc/openssl_common.h:260-296 | the loop over the buffers with memmove and realloc is the specified step |
| TlsQueues.TlsClient.OnReadCb | proc_inc/openssl_common.h:205-256 | likewise for incoming bytes; its codes are those of `TlsCodes.OnReadFails`, `TlsCodes.OnReadSucceeds` and `TlsCodes.OnReadWaits` |
| TlsQueues.TlsClient.DoSslHandshake | proc_inc/openssl_common.h:180-202 | likewise for a handshake step |
| TlsQueues.TlsClient.DoSockWrite | proc_inc/openssl_common.h:323-336 | a socket write takes as many bytes off the front as the answer says, and the result is 0 if and only if it took any |

## Left out

- SQL text, MySQL calls, sockets, System V and datagram queues, logging, pid files, daemonising and threads: system calls and plumbing.
- The per-item JSON field parsers and the size getters: field copies and plain reads.
- `m_linux.c` and `gpipe/squeue.c`: near-duplicates of the modelled files.
- The comparison of processes for `qsort`, the order of the active list after it, and the exponential average of the CPU load in `get_process_info`: floating-point bookkeeping beside the table.
- Directory entries under `/proc` that begin with a digit but are no number, and names that repeat: entries are distinct pids.
- ProcessTable.Machine.GetProcessInfo: asks that every probe of the scan halts and that at most 4000 processes are listed; the source checks neither. A probe that does not halt goes round for ever (`ProcessTable.HaltsExactly`): that takes a full table and a pid that is not in it. A 4001st listed process is written behind the active list.
- CpuPercentages.Percentages: does not model 64-bit overflow of the sum or of the product with 1000, because counters of that size do not occur in tick counts.
- Calendar.ToDay: does not model `int` overflow of day numbers, which needs a year beyond five million.
- TimeFormat.Str2Time: asks for text at least as long as the format; the source reads behind a shorter one.
- Calendar.GetDayOfWeek: asks for text that fits the 11-byte buffer of the source, and, like the other two, for a month up to 13.
- ConfigLoad.LoadParser: asks that the name and the option of every counted line stay inside the text fields of an entry, because the source writes past the entry otherwise; `ConfigLoad.OverflowFillsRow` says that this takes a line of 256 characters without a comment sign, and `ConfigLoad.ApartFits` that it takes one that runs into the next. The counting pass has no such condition.
- ConfigLoad.FileReadsBack: its condition on the lines is exact for the texts that are read (`ConfigLoad.WrittenLines`), not for the entries made of them: what runs on behind the name of a heading does not change its entry.
- The configuration file is read three times by the source; the model takes its content to be the same each time.
- `SQClear`, `SQRemove`, `SQInitNotBackup`: assignments and a shell command.
- RingQueue.SQueue.SQSaveQ: does not model a short `fwrite`, whose result the source ignores.
- TextPieces.ParseStringByToken: asks that the pieces up to the one wanted fit the 1024-byte buffer of the source.
- Summary.ReaderFinds: is about words without quotes and longer than one character, as the readers search for; a quote or a comma could also be found in the marks around the values.
- Summary.GetSummaryFt: asks that the text fits the 2048-byte buffer of the source, and values without zero bytes, which a JSON string does not hold there.
- Templates.ReportHeaderFilter: asks that the expansion fits both buffers, which the source takes for granted, and that 20 characters lie behind the text for the scan to look at. The Body, Footer, Pie, Line and Bar filters repeat it, and `fdb_ViewFilter` repeats the other.
- TlsQueues.TlsClient.DoEncrypt: returns no code when the supplied answers of OpenSSL end before the loop does; every prefix of a run is covered that way.
- `fcom_Jsplit`, `fcom_Ltrim`, `fcom_Str2Dec`: they do not do what their names say.
