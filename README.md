# yotta, modelled in Dafny

yotta keeps track of how long processes run, per process name, across
restarts and reboots. A daemon (`yotta_daemon`) does three things:

- It polls the pid list of `/proc` and reads each new process's
  `/proc/<pid>/stat` record for its name and start tick.
- When a process ends, it credits the process's uptime to its name in a
  ledger.
- On shutdown it merges that ledger into the uptime file. Over a local socket
  it answers two requests, `uptimeBuffer` and `processBuffer`.

The command-line client `yotta` reads its options, the uptime file and the two
answers, and lists the names with their uptimes.

The project models the logic of that core, with the operating system as
inputs. Each module follows one part of the program:

| module | models |
|---|---|
| `Text` | `std::string` operations the code relies on: `find`, `find_last_of`, `substr`, `size_t` wrap-around, a C string read out of a zero-filled buffer |
| `Decimal` | `std::to_string` of `int` and `float` (`"%f"`), `std::stoi`, `std::stof` |
| `Order` | the ascending key order in which a `std::map` is iterated |
| `Util` | `isFloat` and `trim` (util.cpp) |
| `Stat` | the character-by-character stat-record reader in `initProcessBuffer` / `updateProcessBuffer` |
| `Tracking` | the process table, the uptime ledger, `containsNumber`, `initProcessBuffer`, `initUptimeBuffer`, `updateProcessBuffer`, and one pass of the differ loop of `timeTracking` |
| `Persistence` | `save`: crediting the live processes, reading the uptime file word by word, merging, and the lines written back |
| `Wire` | the records the daemon sends and its request dispatch (socket.cpp) |
| `Cli` | the client's argument expansion, option loop, option checks and listing filter |
| `Client` | the client's reading of the data file and of the two answers into `askedProcesses` |

The loops of the source are methods with loop invariants. Each method is
proved equal to a function, and lemmas prove the properties of those
functions. The maps the source updates through references (`processBuffer`,
`uptimeBuffer`, `askedProcesses`) are passed in and returned as values.

Five parts of the code are each modelled twice, as written and corrected:
the positional guard of the differ loop, its lookup of ended pids that may
have no entry, the merge arithmetic of `save`, the process-answer loop of
the client, and the single-dash long forms `-day`, `-hour`, `-minute`.
The methods follow the code. What separates the two versions is proved, and
the "## Findings" section lists it.

Points where the code behaves otherwise than a reader might expect, and
where the model follows the code:

- `getNewPidList` does not sort the pid snapshot; it keeps the order of the
  `/proc` listing. The model takes the list as given, and the differ lemmas
  state the shape of list they need as a precondition.
- `save` credits a still-running process with `now − start/CLK_TCK`
  (timeTracking.cpp:227): unlike the differ (timeTracking.cpp:305-307), it
  takes no second off and does not clamp at zero.
- `save` doubles the session's amount before adding it to the file's (see
  the findings): saving `A: 5` over a file line `A: 10` writes `A: 20`.
- `save` writes the amounts in the default stream format of `float`, not in
  fixed decimal notation.
- Processes of one name that run at the same time are each credited in
  full; no shown file merges their intervals.

## Model

| member | source | states |
|---|---|---|
| Text.Find | yotta_cli.cpp:81-83 | `find` gives the first index of the character, or none exactly when the character is absent |
| Text.FindLast | yotta_cli.cpp:33-34 | `find_last_of` gives the last index of the character, or none exactly when the character is absent |
| Text.Substr | yotta_cli.cpp:86-87 | `substr(pos, n)` holds `n` characters, or all that remain after `pos` when fewer do, each the character of `s` at `pos` plus its index |
| Text.CString | yotta_cli.cpp:79-80 | the string read out of a buffer stops at the first zero: it holds no zero and is a prefix of the buffer, ending at a zero or at the buffer's end |
| Text.SizeModular | yotta_cli.cpp:84-85 | the `size_t` sum and difference are the integer ones modulo 2^64 |
| Decimal.NatToDecimal | socket.cpp:100 | the decimal text of a count is non-empty, all digits, and without a leading zero |
| Decimal.DigitsOfNat | socket.cpp:100 | the value of the digits of `to_string(n)` is `n` |
| Decimal.ParseIntOfDecimal | yotta_cli.cpp:88 | `stoi` reads back a pid written by `to_string`, whatever follows it |
| Decimal.ParseFloatOfDecimal | yotta_cli.cpp:89 | `stof` reads back a start tick written by `to_string` as that integer |
| Decimal.ParseFloatOfFixed | yotta_cli.cpp:133 | `stof` of the `"%f"` text of `v` gives `v` rounded to six decimals, whatever follows the text |
| Decimal.RoundedIsClose | socket.cpp:106 | rounding to six decimals moves a value by at most half a millionth |
| Order.LessTotal | socket.cpp:104 | the string order of `std::map<std::string, …>` relates any two different names |
| Order.LessTransitive | socket.cpp:104 | the string order is transitive |
| Order.LessIrreflexive | socket.cpp:104 | no name comes before itself |
| Order.SortedNames | socket.cpp:104 | the map's names in iteration order hold exactly its names and start with the least |
| Order.SortedNamesAscending | socket.cpp:104 | names are visited in strictly ascending order |
| Order.SortedNamesLength | socket.cpp:104 | every name is visited once |
| Order.SortedPids | socket.cpp:116 | the map's pids in iteration order hold exactly its pids and start with the least |
| Order.SortedPidsAscending | socket.cpp:116 | pids are visited in strictly ascending order |
| Order.SortedPidsLength | socket.cpp:116 | every pid is visited once |
| Order.NameList | socket.cpp:104 | the loop that lists a ledger's names yields the map's iteration order |
| Order.PidList | socket.cpp:116 | the loop that lists a table's pids yields the map's iteration order |
| Util.IsFloat | util.cpp:50-62 | true exactly when every character is a digit or a point and there is at most one point |
| Util.FloatTextAccepts | util.cpp:53-61 | `""`, `"."`, `"5."` and `".5"` pass |
| Util.FloatTextRejects | util.cpp:53-61 | any text holding `-`, `+` or `e` fails, such as `"-1"` and `"1e5"` |
| Util.FloatTextParses | util.cpp:50-62 | of the texts `isFloat` accepts, `stof` reads exactly those that hold a digit |
| Util.Trim | util.cpp:65-79 | `trim` of a non-empty string is the result of stripping from the front while more than one character is left, then from the back |
| Util.TrimExact | util.cpp:65-79 | for whitespace `p`, `q` and a middle `m` that starts and ends with non-whitespace, `trim(p + m + q)` is exactly `m` |
| Util.TrimSplit | util.cpp:65-79 | a string with a non-space character is trimmed to the span from its first to its last non-space character, with only whitespace outside |
| Util.TrimAllSpace | util.cpp:69-73 | a non-empty all-whitespace string is trimmed to its last character |
| Util.TrimIdempotent | util.cpp:65-79 | trimming twice gives what trimming once gives, when a non-space character is present |
| Stat.ParseStat | timeTracking.cpp:74-93 | the character loop with `wordCount` and `depth` yields the name and start tick that `StatOf` assigns to the record, the tick saturated to `int` |
| Stat.ReadField | timeTracking.cpp:134-150 | one pass of the outer loop reads at least one character and keeps the scan of the record on track, counting a space outside parentheses as one field |
| Stat.ReadGroup | timeTracking.cpp:79-88 | the inner loop stops on the `)` that closes the group by depth, having appended everything up to and including it |
| Stat.StatRecord | timeTracking.cpp:74-93 | for `pid (comm) ` followed by 19 fields and the start tick, the reader gives `comm` and that tick, whatever `comm` holds when its parentheses balance; the tick is saturated to `int` |
| Stat.StartTickSaturates | timeTracking.cpp:151 | `>>` into the `int` start tick stores `INT_MAX` for any tick above it and the tick itself within range |
| Stat.StatLayout | timeTracking.cpp:90-91 | spaces inside the name do not count; the text after the 21st space outside it is the start tick's |
| Stat.GroupName | timeTracking.cpp:78-88 | a group `( n )` with balanced `n` contributes exactly `n` to the name |
| Stat.CloseOfNested | timeTracking.cpp:80-87 | the depth counter finds the `)` that matches the opening one, past nested pairs |
| Stat.NestedExample | timeTracking.cpp:78-88 | `(a(b)c) x` gives the name `a(b)c` |
| Stat.EmptyExample | timeTracking.cpp:78-88 | `() x` gives the empty name |
| Stat.SkipFields | timeTracking.cpp:90-91 | each field without parentheses uses up exactly one space |
| Tracking.ContainsNumber | timeTracking.cpp:46-48 | true exactly when some character is a decimal digit |
| Tracking.FirstDigit | timeTracking.cpp:47 | the first digit's index, and no digit before it; none exactly when there is no digit |
| Tracking.InsertAll | timeTracking.cpp:94 | inserting pids keeps every existing entry, adds exactly the pids whose stat file opens, and gives each new entry its stat record |
| Tracking.ReadInto | timeTracking.cpp:72-94 | one pid: skipped if its file does not open, never overwriting an entry, otherwise read and inserted |
| Tracking.InitProcessBuffer | timeTracking.cpp:59-103 | the table holds each listed pid whose stat file opens, read from it |
| Tracking.InitUptimeBuffer | timeTracking.cpp:171-178 | the ledger's keys are exactly the names in the table, each with 0 |
| Tracking.AllNames | timeTracking.cpp:173-174 | visiting every pid of the table collects exactly the table's names |
| Tracking.Clamped | timeTracking.cpp:305-307 | a finalized uptime is never negative: it is 0 or `now − start/CLK_TCK − 1`, and at least both |
| Tracking.Credit | timeTracking.cpp:309 | `uptimeBuffer[name] += a` adds the name if missing, adds `a` to its amount, leaves the other names alone |
| Tracking.Finalize | timeTracking.cpp:302-310 | finalizing a pid erases exactly it from the table and adds its clamped uptime to its name's amount (0 when the name is new); every other name keeps its amount |
| Tracking.FinalizeAll | timeTracking.cpp:299-312 | finalizing a list of pids erases exactly them and leaves every other entry as it was |
| Tracking.FinalizeAllLedger | timeTracking.cpp:299-312 | the ledger gains exactly the names of the finalized pids; no amount goes down; names of other processes keep their amounts |
| Tracking.Walk | timeTracking.cpp:299-312 | the walk classifies every old pid as matched or ended, and matches at most the list compared against |
| Tracking.WalkEndedFrom | timeTracking.cpp:299-312 | the ended pids are old pids, each once |
| Tracking.UpdateProcessBuffer | timeTracking.cpp:117-159 | exactly the new pids from index `pidList.size() − offset` on are read and inserted, and only when that index is in range |
| Tracking.InsertAllNext | timeTracking.cpp:128-152 | inserting one more pid of the slice is one more `insert` on the table so far |
| Tracking.DifferLoop | timeTracking.cpp:298-312 | the `i`/`offset` loop finalizes the pids the walk finds ended, in order; `offset` counts them |
| Tracking.FinalizeEnded | timeTracking.cpp:300-311 | the inner `while` finalizes old pids until one matches the new list at `i` or the old list runs out |
| Tracking.TimeTrackingCycle | timeTracking.cpp:298-315 | one pass of the loop computes `AsWrittenCycle` and replaces the pid list with the new one |
| Tracking.CorrectedShape | timeTracking.cpp:298-315 | when the new list is the old one minus the pids `d`, followed by fresh pids, the corrected pass finalizes exactly `d` and reads the fresh pids |
| Tracking.CorrectedShapeKeys | timeTracking.cpp:298-315 | for that shape, the corrected pass leaves exactly the unaffected entries, the survivors not in `d`, and the fresh pids whose stat file opens |
| Tracking.CorrectedSameList | timeTracking.cpp:293-296 | a pass over an unchanged list changes neither table nor ledger |
| Tracking.AsWrittenWithNewPids | timeTracking.cpp:300 | when at least one fresh pid is appended, the pass as written equals the corrected one |
| Tracking.AsWrittenNoNewPids | timeTracking.cpp:300 | when no pid is appended, the pass as written also finalizes the last surviving pid and then reads it again from its stat file |
| Tracking.AsWrittenShapeKeys | timeTracking.cpp:298-315 | either way, for that shape and readable stat files, the table keys end up as the pids outside the old list plus the new list |
| Tracking.AsWrittenRefinalizes | timeTracking.cpp:300 | old `[5, 6]`, new `[6]`: both are credited and 6 is reread as a new process |
| Tracking.CorrectedKeepsRunning | timeTracking.cpp:300 | corrected, the same pass credits only 5 and keeps 6's entry |
| Tracking.AsWrittenLosesPid | timeTracking.cpp:298-315 | a new pid whose stat file does not open is left out of the table, though the pass hands it on in the next pid list; so not every listed pid has an entry |
| Tracking.AsWrittenUnreadPid | timeTracking.cpp:298-315 | from an empty table, the new list `[7]` with no stat file for 7 leaves the table empty while `[7]` is handed on |
| Tracking.CorrectedFinalizeAll | timeTracking.cpp:299-312 | with a `find != end()` test, finalizing erases exactly the listed pids from the table, whether or not each has an entry, and keeps every other entry |
| Tracking.CorrectedFinalizeAgrees | timeTracking.cpp:299-312 | where every listed pid has an entry, the tested finalizing equals the untested one |
| Tracking.CorrectedFinalizeLedger | timeTracking.cpp:302-309 | with the test, the ledger gains exactly the names of the listed pids that have an entry; no amount goes down; every other name keeps its amount |
| Tracking.CorrectedLookupCycle | timeTracking.cpp:298-315 | the pass with both corrections is defined for every table; its keys are the entries of pids that did not end plus the new pids from the matched count on whose stat file opens |
| Tracking.CorrectedLookupAgrees | timeTracking.cpp:298-315 | where every old pid has an entry, that pass equals the corrected pass |
| Tracking.CorrectedLookupPassesOver | timeTracking.cpp:302-308 | listed 7 without an entry, then new list `[8]`: nothing is credited and 8 is read |
| Persistence.Elapsed | timeTracking.cpp:227 | a live process is credited `now − start/CLK_TCK`, with no second taken off and no clamp |
| Persistence.CreditLiveLedger | timeTracking.cpp:224-229 | crediting the live processes adds exactly their names to the ledger and changes no other name's amount |
| Persistence.CreditFromBoot | timeTracking.cpp:227-228 | a process started at tick 0 is credited the whole system uptime |
| Persistence.CreditProcesses | timeTracking.cpp:224-229 | the range-for credits the processes in pid order |
| Persistence.WordLen | timeTracking.cpp:244 | a word runs up to the first whitespace |
| Persistence.Words | timeTracking.cpp:244-249 | the `>>` extractions give whitespace-free, non-empty words |
| Persistence.WordsOfJoin | timeTracking.cpp:244-249 | words joined by single spaces are extracted back as those words |
| Persistence.Gather | timeTracking.cpp:247-250 | the inner loop grows the name until `isFloat` accepts a word; the file may not end first |
| Persistence.GatherJoin | timeTracking.cpp:247-250 | when no word before `v` passes `isFloat`, the name is the words joined by single spaces and `v` is the value |
| Persistence.ReadEntry | timeTracking.cpp:244-252 | one record uses up at least one word, or fails: no value word, a value with no digit, or end of file while gathering |
| Persistence.MergeEntry | timeTracking.cpp:253-255 | merging a saved `p` makes the name's amount `2u + p`, adds the name, leaves the others |
| Persistence.MergeAllValues | timeTracking.cpp:244-256 | over a file of distinct names: each becomes `2u + p`, names just in the ledger keep `u`, names just in the file get `p` |
| Persistence.CorrectedMergeEntry | timeTracking.cpp:210 | merging as documented makes the amount `u + p` |
| Persistence.CorrectedMergeAllValues | timeTracking.cpp:210 | over distinct names, each becomes `u + p` and the others keep theirs |
| Persistence.MergeFile | timeTracking.cpp:244-256 | the outer loop merges the file's records in turn or stops at the first error |
| Persistence.ReadRecord | timeTracking.cpp:245-252 | one pass of the outer loop reads the record starting at word `k` and says where the next begins |
| Persistence.Listing | timeTracking.cpp:259-261 | one line per name of the ledger, in ascending name order, each with its own amount |
| Persistence.ListLedger | timeTracking.cpp:259-261 | the writing loop produces that listing |
| Persistence.Save | timeTracking.cpp:218-263 | `save` yields the listing of the merged ledger, or the reason it cannot read the file |
| Persistence.ReadLine | timeTracking.cpp:244-252 | a written line reads back as its name and value when `v` passes `isFloat` and holds a digit, the name's words are single-spaced, and no later word passes `isFloat` |
| Persistence.FileRoundTrip | timeTracking.cpp:244-252 | a file of such lines is read back as exactly their names and values, in order |
| Persistence.LineWords | timeTracking.cpp:260 | the words of a line are the name's words, the last carrying the `:`, then the value |
| Persistence.ReadOneLine | timeTracking.cpp:244-252 | a file of one such line holds exactly one record |
| Persistence.SaveOneName | timeTracking.cpp:253-255 | with nothing running, saving `u` over a file line `p` for the same name writes `2u + p` |
| Persistence.MergeAsWrittenExample | timeTracking.cpp:253-255 | `{A: 5}` saved over `A: 10` gives `A: 20` |
| Persistence.CorrectedSaveExample | timeTracking.cpp:210 | corrected, it gives `A: 15` |
| Wire.IntTextNumeric | socket.cpp:118 | a pid's or tick's text holds only number characters (digits, `-`, `.`), so no separator, zero byte or newline |
| Wire.FixedTextNumeric | socket.cpp:106 | an uptime's text holds only digits, a sign and a point |
| Wire.UptimeRecord | socket.cpp:106 | the name, then its only `\1` when the name holds none, then the seconds' text, with its only newline last when the name holds none; `Client.DecodeUptimeRecord` reads it back |
| Wire.ProcessRecord | socket.cpp:118 | the pid's text, its only `\1`, the name, its only `\2` and the tick's text, with its only newline last, when the name holds none of them; `Client.DecodeProcessRecord` reads it back |
| Wire.Reply | socket.cpp:98-122 | a known request gets the map's size as its first write and one more write per entry; any other request gets nothing (`Wire.ReplyOnlyToKnown`, `Wire.HeaderCounts`) |
| Wire.Serve | socket.cpp:98-123 | what the daemon writes is the reply for the buffer's C string |
| Wire.SendUptimes | socket.cpp:99-109 | the uptime answer is the copy's size, then one record per name in map order |
| Wire.SendProcesses | socket.cpp:111-121 | the process answer is the copy's size, then one record per pid in map order |
| Wire.ReplyOnlyToKnown | socket.cpp:98-123 | a request gets a reply exactly when it is `uptimeBuffer` or `processBuffer` |
| Wire.HeaderCounts | socket.cpp:100-101 | the first write reads back with `stoi` as the number of records after it |
| Wire.CountText | socket.cpp:100 | a count survives being written and read back through the zero-filled buffer |
| Wire.UptimeReplyOrdered | socket.cpp:104-106 | the uptime records cover every name once, in ascending name order |
| Wire.ProcessReplyOrdered | socket.cpp:116-118 | the process records cover every pid once, in ascending pid order |
| Wire.ClientRequests | socket.cpp:98-110 | the client's two requests, one with its zero and one without, both match |
| Cli.IsShortArg | yotta_cli.cpp:42-50 | true exactly when the argument has two characters or more, a `-` first and no `-` second |
| Cli.ExpandArgs | yotta_cli.cpp:152-161 | the buffer is the expansion of every argument after the command, in order |
| Cli.PushSingles | yotta_cli.cpp:154-158 | a short argument adds one `-c` per character after the dash |
| Cli.Expanded | yotta_cli.cpp:152-161 | the expansion drops no argument: it is at least as long as the arguments (`Cli.ExpandedShape` gives its elements) |
| Cli.ExpandedAppend | yotta_cli.cpp:152-161 | expansion works argument by argument, keeping order |
| Cli.ExpandedKeeps | yotta_cli.cpp:159-160 | arguments that are not short flags pass unchanged |
| Cli.ExpandedExamples | yotta_cli.cpp:152-161 | `-abc` becomes `-a -b -c`; `-`, `--x` and `x` stay as they are |
| Cli.ExpandedShape | yotta_cli.cpp:152-161 | every element of the buffer is an original non-short argument or a two-character dash flag |
| Cli.AsWrittenFlag | yotta_cli.cpp:166-185 | the `-d`, `-H`, `-m` branches are taken exactly for those short forms and `-day`, `-hour`, `-minute`; those three are the only recognised arguments longer than two characters that the expansion splits (`Cli.AsWrittenDayRejected`) |
| Cli.CorrectedFlag | yotta_cli.cpp:166-185 | with `--day`, `--hour`, `--minute` instead, every recognised argument the expansion would split has two characters, and every argument but the six long spellings is read as before (`Cli.CorrectedLongForms`) |
| Cli.Threshold | yotta_cli.cpp:187-197 | a value is stored exactly when `isInt` holds and `stoi` gives a positive number, and it is that number; otherwise the run ends with the not-positive message, or with `stoi` throwing (`Cli.ThresholdStep`) |
| Cli.Step | yotta_cli.cpp:164-209 | each pass of the option loop erases the front argument, or the front two for `-g`/`-l` |
| Cli.Parse | yotta_cli.cpp:164-209 | an argument the loop rejects is one of the arguments and matches no branch; the loop itself never ends with the exits of the two checks after it (`Cli.ParseOptions`, `Cli.ParseGrows`) |
| Cli.ParseOptions | yotta_cli.cpp:164-209 | the loop ends with the options the arguments give, or with the run's exit |
| Cli.SwitchesOnly | yotta_cli.cpp:172-185 | a run of switches turns on exactly the options it names and leaves the thresholds alone |
| Cli.ThresholdStep | yotta_cli.cpp:186-203 | `-g`/`-l` take the next argument whatever it is, store it when it is a positive integer, and otherwise end the run |
| Cli.ThresholdLast | yotta_cli.cpp:187 | `-g`/`-l` with no following argument has no value to read |
| Cli.UnknownEnds | yotta_cli.cpp:204-207 | an unknown argument ends the run whatever follows |
| Cli.ParseGrows | yotta_cli.cpp:164-209 | options only turn on, and the thresholds stay non-negative, and positive once set |
| Cli.StepGrows | yotta_cli.cpp:164-209 | the same for one pass |
| Cli.SwitchAlone | yotta_cli.cpp:164-209 | a lone argument that is not a short flag is looked up as a whole |
| Cli.LongFormsNeverReach | yotta_cli.cpp:176-181 | `-day`, `-hour`, `-minute` never reach the loop: expansion splits them |
| Cli.AsWrittenDayRejected | yotta_cli.cpp:176 | `-day` is run as `-d -a -y` and ends on `-a` |
| Cli.CorrectedLongForms | yotta_cli.cpp:176-181 | as `--day`, `--hour`, `--minute` they pass expansion and set their options |
| Cli.Shown | yotta_cli.cpp:243 | printed exactly when not excluded by `-g` (at most `g`) or by `-l` (at least `l`) |
| Cli.ValidateIffShowable | yotta_cli.cpp:212-223 | the options pass exactly when `-b` and `-B` are not both given and some uptime can be printed |
| Cli.Validate | yotta_cli.cpp:212-223 | on success the options are unchanged; the run ends with the boot conflict exactly when `-b` and `-B` are both on, and otherwise only with the empty interval (`Cli.ValidateIffShowable`) |
| Client.After | yotta_cli.cpp:84-87 | `pos + 1` in `size_t` is the next index, or 0 for npos |
| Client.ReadDataLine | yotta_cli.cpp:33-34 | the name is the line before its last `:` (all of it without one), the value is read from after its last space (all of it without one), and the line is read exactly when `stof` takes that value; the two splits are stated for lines shorter than npos (`Client.DataLineRoundTrip`) |
| Client.DataLineRoundTrip | yotta_cli.cpp:33-34 | for `name: v` with `v` free of `:` and spaces, the name and value are recovered exactly |
| Client.ReadsSavedLine | yotta_cli.cpp:32-34 | a line `save` writes reads back as that name and the `stof` of its value |
| Client.AddData | yotta_cli.cpp:35-38 | a name held keeps its pid and gains the value; a new name gets pid 0 and the value |
| Client.GetDataFile | yotta_cli.cpp:23-40 | the loop adds every line in turn; no file ends the run |
| Client.DataFileTotals | yotta_cli.cpp:32-39 | after the file, the names read are added, each holding its old seconds plus its lines' sum, and keeping the pid it held |
| Client.UptimeFieldsOf | yotta_cli.cpp:128-132 | an uptime record without `\1` in the name splits into the name and the seconds' text |
| Client.ReadUptimeFields | yotta_cli.cpp:133 | the record is read exactly when `stof` takes the seconds' text, giving the name and that number |
| Client.DecodeUptime | yotta_cli.cpp:128-133 | splitting never fails: a record that is not read is one whose seconds' text `stof` refuses, and a read one gives the first field and the `stof` of the second (`Client.DecodeUptimeAt`, `Client.DecodeUptimeRecord`) |
| Client.DecodeUptimeAt | yotta_cli.cpp:128-132 | with the first `\1` before the first newline, the name is the text before the `\1` and the seconds' text runs from after it through the newline: the `size_t` arithmetic does not wrap |
| Client.DecodeUptimeRecord | yotta_cli.cpp:124-133 | decoding the record of socket.cpp:106 gives the name and the seconds rounded to six decimals |
| Client.ProcessFieldsOf | yotta_cli.cpp:81-87 | a process record whose name is free of separators splits back into the pid, name and tick texts |
| Client.ReadProcessFields | yotta_cli.cpp:88-89 | the record is read exactly when `stoi` takes the pid's text and `stof` the tick's, giving the two numbers and the name between |
| Client.DecodeProcess | yotta_cli.cpp:81-89 | splitting never fails: only `stoi` of the first field or `stof` of the third can, and a read record gives their numbers and the second field as the name (`Client.DecodeProcessAt`, `Client.DecodeProcessRecord`) |
| Client.DecodeProcessAt | yotta_cli.cpp:81-87 | with the first `\1`, `\2` and newline in that order, the fields are the text before the `\1`, between it and the `\2`, and from after the `\2` through the newline: the `size_t` arithmetic does not wrap |
| Client.DecodeProcessRecord | yotta_cli.cpp:77-89 | decoding the record of socket.cpp:118 gives the pid, the name and the start tick |
| Client.SetUptime | yotta_cli.cpp:134 | an uptime record replaces the name's seconds, keeps its pid (0 when new), leaves the others |
| Client.AddProcess | yotta_cli.cpp:91-95 | a process record sets the name's pid and adds the tick to its seconds |
| Client.GetUptimeBuffer | yotta_cli.cpp:122-136 | the count is read, then that many records applied in turn |
| Client.GetProcessBuffer | yotta_cli.cpp:72-97 | the count is read, then `n − 1` records applied in turn |
| Client.ReadProcessRecords | yotta_cli.cpp:76-97 | the record loop applies the records in turn and stops at the first that does not decode |
| Client.Count | yotta_cli.cpp:74 | a count written by `to_string` reads back as itself; an empty buffer makes `stoi` throw (`Wire.CountText`, `Wire.HeaderCounts`) |
| Client.UptimesFold | yotta_cli.cpp:123-136 | when each read decodes, the loop applies the records in order |
| Client.SetAllHolds | yotta_cli.cpp:134 | applying distinct uptime records adds their names with their seconds and leaves the others |
| Client.ProcessesFold | yotta_cli.cpp:76-97 | when each read decodes, the loop applies the records in order |
| Client.AddAllHolds | yotta_cli.cpp:91-95 | applying process records adds their names; a name in one record gets its pid and tick |
| Client.UptimeAnswerApplies | yotta_cli.cpp:118-136 | the daemon's uptime answer read back applies every record the daemon sent, in its order |
| Client.UptimeRoundTrip | yotta_cli.cpp:118-136 | after the uptime answer every daemon name is asked with its seconds to six decimals and its old pid; other names are untouched |
| Client.SeenUptimesHold | yotta_cli.cpp:134 | the records of all the ledger's names, applied, give each its rounded seconds |
| Client.SeenProcessesHold | yotta_cli.cpp:91-95 | the first `n` records applied: their names added, a name with one pid gets that pid and tick, others untouched |
| Client.ProcessRepliesRead | yotta_cli.cpp:74 | the process answer's count reads as the table's size, then the records in pid order |
| Client.CorrectedAnswerRead | yotta_cli.cpp:76-97 | reading all `n` records applies every record of the table |
| Client.AsWrittenAnswerRead | yotta_cli.cpp:76 | reading `n − 1` records applies all but the last |
| Client.CorrectedReadsAll | yotta_cli.cpp:74-97 | reading every record adds exactly the table's names; a name one pid has gets that pid and its tick; others untouched |
| Client.AsWrittenSkipsLast | yotta_cli.cpp:76 | as written, the largest pid's name is never added when only that pid has it and it was not asked; every other single-pid name is read |
| Client.AllProcessesHold | yotta_cli.cpp:76-97 | the records of all the table's pids, applied, stated over the pids |
| Client.AllButLastHold | yotta_cli.cpp:76 | all but the largest pid's records, applied, stated over the pids |

## Left out

- The operating system is inputs: the `/proc` listing, the stat files, `/proc/uptime`, `CLK_TCK`, the uptime file's text and the client's lines. A stat file that does not open is a pid missing from the `Proc` map; its log message is not modelled.
- `getNewPidList` and the `/task` test: the pid list is an input, in the order of the `/proc` listing (the code does not sort it), so the differ lemmas take its shape (old list minus ended pids, then fresh pids) as a precondition.
- The `while (true)` loop, its `sleep` polling and the SIGTERM test (timeTracking.cpp:286-296): one pass is modelled, for a new list that differs from the old one.
- Threads, the unlocked sharing of the maps between the tracking and socket threads, signals, `mask_sig` and `error`.
- The socket system calls, `select`/`accept`, the acknowledgement bytes, and `pidof` (yotta_cli.cpp:229). Each write of the daemon is one element of a sequence, and each client read is one element of the `chunks` sequence.
- Tracking.TimeTrackingCycle, Tracking.DifferLoop, Tracking.FinalizeEnded: require every pid of the old list to have an entry in the table. The source reaches a pass where one has none (a stat file that did not open at timeTracking.cpp:131, 153, or a pid that `initProcessBuffer` and `getNewPidList` listed apart, 282-284); when that pid ends, `find(...)->second` and `erase(find(...))` at 302-308 act on `end()`, which is undefined behaviour and is not modelled. They also require a non-empty new list: on an empty one, `newPidList.size() - 1` at timeTracking.cpp:300 wraps around and the guard reads `newPidList[0]` (undefined behaviour; the daemon's own pid is always listed). The findings give the corrected pass.
- Tracking.FinalizeEnded: the guard at timeTracking.cpp:300 reads `pidList[i + offset]` before testing `i + offset < pidList.size()`, so once the last old pid is finalized while `i < newPidList.size() - 1` it reads one element past the end (undefined behaviour); the model tests the bound first. `getSystemUptime()` is read again for every finalized pid (304); the model credits all pids of one pass with a single `now`.
- Client.GetUptimeBuffer: a record longer than the 80-byte read buffer is split across reads in the source; the model takes one whole record per read.
- Client.GetProcessBuffer: the same 80-byte limit is not modelled.
- `float` arithmetic: seconds are reals, so float rounding and overflow are not captured.
- `std::stof` is modelled for optional whitespace, a sign, digits and an optional fraction. Exponents, `inf`, `nan`, hexadecimal forms and out-of-range values are left out.
- `std::stoi` does not throw on values outside `int` in the model.
- `std::to_string(float)` is modelled as `"%f"` with six decimals, rounded half away from zero.
- Persistence.Save returns the lines as (name, value) pairs: the default `<<` formatting of a `float` (which can use exponent form, which `isFloat` then rejects) is not modelled.
- The opening, creation and truncation of the uptime file in `save`. A missing file reads as empty text.
- Persistence.ReadEntry: when the file ends while a name is being gathered, the source loops forever on the last word; the model returns `Unterminated`. A value word with no digit makes `stof` throw; the model returns `NoNumber`.
- Stat.ParseStat requires a record with 21 spaces outside the name and every `(` closed. On a shorter record `get` at end of file leaves `c` as it was (timeTracking.cpp:77, 135), and the source then leaves the loop only when `c` holds a space outside the name: that space is counted again on every pass until `wordCount` reaches 22 (90-91, 148-149), the extraction of the start tick then fails on the ended stream and leaves the variable as it was (93, 151), and the entry is inserted with that stale tick. With any other character in `c` the loop never ends. Neither case is modelled.
- Util.Trim requires a non-empty string: the source reads `s[-1]` on an empty one.
- Cli.ThresholdLast: `-g`/`-l` as the last argument reads past the end of the vector in the source (undefined behaviour); the model ends the run with `MissingValue`.
- `isInt` is not part of this model (it is not defined in any shown file); the option loop takes it as a parameter.
- `Text.Fits`, `Client.SendableUptime` and `Client.SendableProcess` require a record shorter than `npos`. They also require its name free of the separators and the zero byte that the decoders split on.
- Client.CorrectedReadsAll and Client.AsWrittenSkipsLast state the pid and seconds only for a name that a single pid of the table has. For a name several pids share, they state only that it is added.
- Client.UptimeRoundTrip gives the seconds rounded to six decimals, as `"%f"` leaves them, not the daemon's exact value.
- The help and version text, the usage messages, and the `setw` layout of the listing (yotta_cli.cpp:167-171, 244-249), and the echo of every argument before parsing (yotta_cli.cpp:148-150).
- main.cpp, an older copy of the tracking loop without the depth counter, is not part of this model.
- yotta_daemon.cpp (start-up, directories, thread wiring) is not part of this model.
- `parallelTracking` and the configuration it would read are not part of this model; no shown file implements them.
- The headers hold only declarations and constants.

## Findings

| source | as written | input that shows it | evidently intended | confidence | as-written member | corrected member |
|---|---|---|---|---|---|---|
| timeTracking.cpp:300 | the matching stops at `i >= newPidList.size() - 1`, one pid short of the new list's end | old `[5, 6]`, new `[6]`: 6 is still running, yet it is credited as ended and then reread as new | compare against the whole new list, so that only pids that ended are finalized | not executed | Tracking.AsWrittenRefinalizes | Tracking.CorrectedKeepsRunning |
| timeTracking.cpp:302-308 | the differ looks up and erases every ended old pid through `processBuffer.find` without testing for `end()`, yet a pid whose stat file did not open (131, 153) is listed without an entry | new list `[7]` with no stat file for 7: the table stays empty while `[7]` becomes `pidList`; when 7 ends, `find(7)` is `end()` | finalize only the ended pids that have an entry | not executed | Tracking.AsWrittenUnreadPid | Tracking.CorrectedLookupPassesOver |
| timeTracking.cpp:253-255 | `processUptime = previous + uptimeSinceLastBoot; uptimeBuffer[name] += processUptime` makes the amount `2u + p` | `{A: 5}` saved over a file line `A: 10` writes `A: 20` | add the saved amount to the session's, `u + p`, as the comment at timeTracking.cpp:210 says | not executed | Persistence.MergeAsWrittenExample | Persistence.CorrectedSaveExample |
| yotta_cli.cpp:76 | `for (i = 0; i < n - 1; ++i)` reads one record fewer than the count announces | a table with one pid: the count is 1, no record is read, and the client never learns of the process | read all `n` records, as `getUptimeBuffer` does at yotta_cli.cpp:123 | not executed | Client.AsWrittenSkipsLast | Client.CorrectedReadsAll |
| yotta_cli.cpp:176-181 | the long forms are written `-day`, `-hour`, `-minute`, which the expansion at 152-161 splits into one-letter flags | `yotta -day` runs as `-d -a -y` and stops on `-a` as an unknown argument | `--day`, `--hour`, `--minute`, like the other long forms | not executed | Cli.AsWrittenDayRejected | Cli.CorrectedLongForms |
