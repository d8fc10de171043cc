# Infiping, modelled in Dafny

Infiping is a network monitor. It pings a fixed list of servers in a round
robin and appends one CSV row `timestamp,address,failed` per probe to a log
file. When warnings are switched on, it rings the bell for a failed probe.
It only rings when the last failure recorded in the log is at least
`minimumTimeUp` seconds old. The settings come from a small hand-written
option loop over the command line, including a bracketed address list
`-a [a, b, c]`.

The project models the two deterministic pieces of `infiping.py`:

- `strings.dfy` (module `Strings`) holds the Python string operations the
  program relies on: `startswith`, `endswith`, `removeprefix`,
  `removesuffix` and `split(",")[0]`. It also gives the textual form of a
  timestamp and reads it back as `float()` does, with a proved round trip.
  Timestamps are whole seconds written as integer numerals: where `str()`
  of a float writes `1000.0`, the model writes `1000`.
- `pinglog.dfy` (module `PingLog`) models `ping()` as one step over the log.
  - The log is a class `CsvFile`: absent, or present with its logical lines.
  - The step method `CsvFile.Ping` creates the header when the file is absent.
  - On a failed probe with warnings on, it scans for the last failure row
    with a loop (`ScanLastFailure`) and applies the cooldown test.
  - It then appends exactly one row and computes the clamped sleep.
  - Everything is proved against the specification function `PingOutcome`.
  - `CsvFile.RunRounds` runs a bounded prefix of the endless round robin.
- `cli.dfy` (module `Cli`) models the option loop of the `__main__` block.
  - `ParseArgs` and `ReadBracketList` are the loops.
  - `Parse` is the step-by-step specification of those loops.
  - `Declared` states the same result without a loop: last occurrence wins,
    the first help flag wins, and a value flag in the last position fails.
  - `ParseMeaning` proves `Parse` and `Declared` equal.

The probe result and the three clock readings a step takes are parameters:
- the start time;
- the clock at the cooldown test;
- the clock at the pacing step.

The step returns its sleep time instead of sleeping.

Three behaviours of the code are easy to misread, and the model follows the code:

- The failure scan does not look at the address. The cooldown is shared by
  all addresses and by earlier runs that wrote the same file. "Last" means
  last in file order, not the largest timestamp (`LastFailureIsLastInFileOrder`).
- With no failure on record, `lastFail` is 0. So a first failure warns only
  when the clock reads at least `minimumTimeUp` seconds since the epoch. It is
  not "always" (`FirstFailureWarns`, `EarlyFirstFailureIsSilent`).
- The bracket loop of lines 86-97 does not stop at the element that closes
  the list. The `end` flag only stops the stripped appends at lines 96-97.
  Every later argument that ends in `]` is still appended with its `]`
  removed at lines 88-89, even one that belongs to another option
  (`BracketedShape`, `LaterCloserJoins`, `LaterCloserJoinsParse`). The
  closing element keeps a leading `[` and a trailing `,`
  (`SingleArgumentKeepsBracket`).

## Model

| member | source | states |
|---|---|---|
| Strings.FirstField | infiping.py:51 | `line.split(",")[0]`: the result is a prefix of the line with no comma, and it ends at the first comma when there is one |
| Strings.FormatTimestamp | infiping.py:43 | the text written for a timestamp is non-empty and holds only a sign and digits |
| Strings.TimestampRoundTrip | infiping.py:58 | reading back, with `float()`, the first field that `str(startTime)` wrote gives the same instant |
| Strings.ParseTimestamp | infiping.py:58 | `float(lastFail)` on a field: it yields a number exactly when the field is an optional `+` or `-` followed by at least one ASCII digit; the number is not positive after a `-` and not negative otherwise |
| Strings.ParseTimestampRejects | infiping.py:58 | a field holding a character that is neither a sign nor an ASCII digit is rejected, as `float()` rejects it with `ValueError` |
| Strings.ParseTimestampExamples | infiping.py:58 | `+5` reads as 5, `-12` as -12 and `007` as 7; a bare `+`, an empty field and `5-` are rejected |
| PingLog.RowIsLine | infiping.py:43 | a row `startTime,address,0` or `...,1` is exactly one logical line when the address holds no line terminator |
| PingLog.RowMatchesIffFailed | infiping.py:50 | a row matches the `",1\n"` test exactly when it records a failure |
| PingLog.HeaderIsNotFailure | infiping.py:34 | the header `timestamp,address,failed` never matches the `",1\n"` test |
| PingLog.RowFirstField | infiping.py:51 | the first field of a row is its timestamp, whatever the address |
| PingLog.LastFailureFieldIsLastMatch | infiping.py:49-51 | the scan yields nothing exactly when no line ends in `",1\n"`; otherwise it yields the first field of the last such line in file order |
| PingLog.LastFailureMeaning | infiping.py:49-58 | `lastFail` after the scan: nothing is recalled exactly when no line matches; otherwise the last match's first field is unreadable exactly when it is no numeral, and is read as the recalled time when it is one |
| PingLog.ScanLastFailure | infiping.py:49-51 | the loop that reassigns `lastFail` at every matching line returns the last match's first field, or nothing |
| PingLog.LastFailureAfterFailedRow | infiping.py:61 | after a failure row is appended, the last failure is that row's own start time, whatever was logged before |
| PingLog.LastFailureAfterReachableRow | infiping.py:43 | a success row leaves the last failure unchanged |
| PingLog.LastFailureIsLastInFileOrder | infiping.py:49-51 | of two failure rows for any addresses, the later one in the file is the last failure, whichever time is larger |
| PingLog.CooldownMonotone | infiping.py:58 | once `now >= lastFail + minimumTimeUp` holds, it holds for every later `now` |
| PingLog.SleepTime | infiping.py:63-65 | the sleep is never negative; it is `timeToWait - elapsed` when `elapsed <= timeToWait` and 0 otherwise; it is at most `timeToWait` when both are non-negative |
| PingLog.WarnsIff | infiping.py:42-61 | a step crashes exactly when it scans and the last failure's field is not a number; it warns exactly when the probe failed, warnings are on and `now >= lastFail + minimumTimeUp`; its sleep is the clamp |
| PingLog.FirstFailureWarns | infiping.py:53-58 | with no failure row in the log, a failed probe warns exactly when `now >= minimumTimeUp` |
| PingLog.WarningMonotoneInNow | infiping.py:58 | for the same log, a failed probe that warns at `now` warns at every later `now` |
| PingLog.CooldownExample | infiping.py:58 | a failure logged at 100 with a 60 s cooldown: a failed probe at 150 is silent and one at 161 warns |
| PingLog.OutageScenario | infiping.py:45-65 | failures of one address at 1000, 1005 and 1065 with a 60 s cooldown warn, stay silent and warn again, each sleeping 4 s of a 5 s pace |
| PingLog.EarlyFirstFailureIsSilent | infiping.py:53-58 | a first failure at t=0 with a 60 s cooldown does not warn, because the missing `lastFail` counts as 0 |
| PingLog.CsvFile.Absent | infiping.py:32 | a log file that does not exist yet |
| PingLog.CsvFile.Existing | infiping.py:41 | an existing log file with its logical lines |
| PingLog.CsvFile.Ping | infiping.py:29-67 | the header is written only when the file was absent; the outcome is `PingOutcome` of the log as it stood before the row; the old content stays as a prefix and exactly one row `startTime,address,0` or `...,1` follows, unless the failure scan read a non-number, in which case no row is written |
| PingLog.OpenedMeaning | infiping.py:32-34 | creating the file keeps the log made of logical lines, and a freshly created log records no failure |
| PingLog.CsvFile.PingNext | infiping.py:149-150 | step k probes the address at k modulo the list length and reports what `PingOutcome` says for the log the k earlier steps left |
| PingLog.CsvFile.RunRounds | infiping.py:148-150 | a bounded run of the round robin: every step but the last is logged; the run stops early only at a crash; step k reports the outcome computed from the log the k steps before it left; the log is the opened file followed by one row per logged step |
| PingLog.CsvFile.Rounds | infiping.py:148-150 | the loop of a run: the outcomes are the trace of single-step outcomes, each from the log the steps before it left; the run stops early only at a crash; the log is the opened file followed by one row per logged step |
| PingLog.TraceMeaning | infiping.py:148-150 | every outcome of a run is the single-step outcome computed from the log the steps before it left |
| Cli.FlagSpellings | infiping.py:82-111 | each flag is recognised under exactly the spellings the option loop lists: `-a`/`--addresses`, `-o`/`--output`, `-t`/`--time-to-wait`, `-w`/`--warn`, `-m`/`--minimum-time-up`, and `-h`/`--help`/`h`/`help` |
| Cli.StripMeaning | infiping.py:92-94 | the strip chain removes at most three characters; text without `[`, `]` or `,` is kept as is; an element `[text,` yields exactly `text` |
| Cli.EmittedMeaning | infiping.py:88-97 | each argument appends at most one element: one ending in `]` always appends itself without that `]`; any other appends exactly when `end` is not yet set |
| Cli.ApplyMeaning | infiping.py:82-111 | one pass of the loop body stops exactly at a help flag or at a value flag in the last position, showing the help or raising `IndexError` there; a non-flag changes nothing; other flags leave the address list, output file and warning switch as they were unless it is their own flag |
| Cli.ParseFromMeaning | infiping.py:81-111 | from any position and settings, `IndexError` is only raised at the last position by a value flag; the help is only shown when a help flag lies ahead; with no flag ahead the settings are kept |
| Cli.AddressList | infiping.py:83-84 | `-a` resets the list, and the list stays empty unless the next argument starts with `[`; it is never longer than the arguments after the flag |
| Cli.Bracketed | infiping.py:86-97 | the bracket loop never collects more elements than there are arguments after `-a` |
| Cli.ReadBracketList | infiping.py:86-97 | the loop with its `end` flag computes the bracket list `Bracketed` |
| Cli.BracketedShape | infiping.py:86-97 | the list holds every argument before the first one ending in `]`, stripped of `]`, `[` and `,`; then every argument from that one on that ends in `]`, with only its `]` removed |
| Cli.SingleArgumentKeepsBracket | infiping.py:88-90 | `-a [1.1.1.1]` yields the address `[1.1.1.1`, because the closing element keeps its `[` |
| Cli.LaterCloserJoins | infiping.py:88-97 | for the arguments `[a,` `b]` `-o` `c]` the list is `a`, `b`, `c` |
| Cli.LaterCloserJoinsParse | infiping.py:81-100 | `-a [a, b] -o c]` runs with the addresses `a`, `b`, `c` and the output file `c]` |
| Cli.ParseArgs | infiping.py:79-111 | the option loop, setting by setting, gives the result of the step-by-step specification `Parse` |
| Cli.ParseMeaning | infiping.py:81-111 | the option loop ends as `Declared` says: at the first help flag, with the settings seen before it; otherwise with `IndexError` when the last argument takes a value; otherwise it runs with every setting as its last flag left it, or its default |
| Cli.StopsAtHelp | infiping.py:111-140 | a help flag ends the loop and shows the settings seen so far |
| Cli.StopsCutOff | infiping.py:82-109 | a value-taking flag in the last position ends the loop with `IndexError` at that position |
| Cli.HelpIff | infiping.py:111 | the usage is shown exactly when some argument, value positions included, is `-h`, `--help`, `h` or `help` |
| Cli.MissingValueIff | infiping.py:82-109 | `IndexError` happens exactly when the last argument is a value-taking flag and no argument is a help flag, and it is raised at the last position |
| Cli.LastOutputWins | infiping.py:99-100 | the output file is the argument after the last `-o` or `--output` |
| Cli.WarnIff | infiping.py:105-106 | warnings are on exactly when some argument is `-w` or `--warn` |
| Cli.DefaultsWhenAbsent | infiping.py:73-77 | a setting whose flag never occurs keeps its default: the 14 DNS servers, `ping.csv`, 10 and 60 |
| Cli.HelpIgnoresLater | infiping.py:111-140 | arguments after a help flag change neither the outcome nor the output file, pace, warning switch or cooldown the usage shows |
| Cli.LastFlag | infiping.py:81-109 | the occurrence of a flag whose setting survives lies before the position looked at |
| Cli.LastFlagMeaning | infiping.py:81-109 | `LastFlag` finds the last occurrence of a flag before a position, and finds none only when there is none |
| Cli.FirstHelpMeaning | infiping.py:111 | `FirstHelp` finds the first help flag from a position on, and finds none only when there is none |

## Left out

- The probe itself is not modelled: the shell command `ping -c 1 <address>`
  or `-n` on Windows, and its exit code (lines 36-39 and 42). The step takes
  the probe's result as a boolean. The count-flag choice at lines 142-145 is
  dead code.
- The clock and `time.sleep` are parameters (lines 30, 58, 63 and 67). The
  step takes three clock readings and returns the sleep time.
- Real file I/O is not modelled: CRLF translation on writing, universal
  newlines on reading, and a file whose last line lacks its terminator.
  The log is a sequence of logical lines ending in `"\n"`.
- PingLog.CsvFile.Ping: requires an address without `"\n"` or `"\r"`. Such a
  character would split the row into several lines when the file is read
  back, which the line model cannot express.
- Timestamps and durations are whole seconds (`int`). The fractional digits
  that `str(time.time())` writes are not modelled, nor the `.0` that `str()`
  adds to a whole float.
- Strings.ParseTimestamp: reads only an optional sign and ASCII digits.
  `float()` also accepts `_` between digits, non-ASCII decimal digits,
  surrounding whitespace, a fraction, an exponent, `inf` and `nan`. On a log
  line whose first field uses one of those, the model crashes where the
  program reads a number. The model's own rows never hold such a field.
- Strings.ParseTimestampRejects: its `ValueError` reading holds only for the
  characters modelled; a field with `_`, a non-ASCII digit, whitespace, `.`,
  `e` or the letters of `inf`/`nan` can be accepted by `float()`.
- `-t` and `-m` store the raw text of the next argument. The model keeps that
  text (`Setting.Given`), but the step takes numbers.
  - For `-t`, the `float()` conversion at line 63 is not modelled.
  - For `-m`, the string it stores would make the addition at line 58 raise
    `TypeError` whenever the cooldown is tested. That crash is not modelled.
- Console output is not modelled: the red bell message and terminal-width
  wrapping (line 59), and the help text (lines 112-138). `HelpShown` carries
  the settings the help text prints.
- `os.get_terminal_size()` raises `OSError` when standard output is not a
  terminal. At line 59 that ends `ping()` after a warning, before the
  failure row of line 61 is written; at line 112 it ends the help before
  any text is printed. The model assumes a terminal: a warning step writes
  its row, and the help is shown.
- PingLog.CsvFile.RunRounds: the endless `while True` loop (lines 148-150) is
  cut to as many steps as there are readings, and at least one reading is
  required. The method also requires a non-empty address list: with an
  empty list the program spins forever and writes nothing.
- PingLog.CsvFile.Rounds: has the same two requirements as `RunRounds`.
