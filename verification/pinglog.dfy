/**
 * One monitoring step of the pinger (`ping` in infiping.py) over its CSV log.
 *
 * The file is a sequence of logical lines, each ending in its only line feed
 * (the file is written with CRLF and read back with universal newlines, so the
 * terminator is a single "\n" here). The probe's outcome and the three clock
 * readings the step takes are parameters; the step returns how long it would
 * sleep instead of sleeping.
 */
module PingLog {
  import opened Strings

  /** The header written when the log file does not exist yet. */
  const Header: string := "timestamp,address,failed\n"

  /** The ending that marks a failed probe's row; the failure scan looks for nothing else. */
  const FailedEnding: string := ",1\n"

  /** An address that does not split a row into several lines when read back. */
  predicate NoTerminator(s: string) {
    forall i :: 0 <= i < |s| ==> s[i] != '\n' && s[i] != '\r'
  }

  /** A logical line of the log: text without terminators, followed by one "\n". */
  predicate IsLine(line: string) {
    |line| > 0 && line[|line| - 1] == '\n' && NoTerminator(line[..|line| - 1])
  }

  predicate AllLines(lines: seq<string>) {
    forall i :: 0 <= i < |lines| ==> IsLine(lines[i])
  }

  lemma AppendLine(lines: seq<string>, line: string)
    requires AllLines(lines) && IsLine(line)
    ensures AllLines(lines + [line])
  {
  }

  /** The row `startTime,address,0|1` appended for one probe. */
  function Row(startTime: int, address: string, failed: bool): string {
    FormatTimestamp(startTime) + "," + address + (if failed then FailedEnding else ",0\n")
  }

  /** `line.endswith(",1\n")`: the test the failure scan applies to every line. */
  predicate IsFailureLine(line: string) {
    EndsWith(line, FailedEnding)
  }

  /** Rows are single logical lines exactly when the address holds no terminator. */
  lemma RowIsLine(startTime: int, address: string, failed: bool)
    requires NoTerminator(address)
    ensures IsLine(Row(startTime, address, failed))
  {
    var row := Row(startTime, address, failed);
    var t := FormatTimestamp(startTime);
    forall i | 0 <= i < |row| - 1
      ensures row[i] != '\n' && row[i] != '\r'
    {
      if i < |t| {
        assert row[i] == t[i];
      } else if i == |t| {
        assert row[i] == ',';
      } else if i < |t| + 1 + |address| {
        assert row[i] == address[i - |t| - 1];
      }
    }
  }

  /** The header line never matches the failure scan. */
  lemma HeaderIsNotFailure()
    ensures !IsFailureLine(Header)
  {
    assert Header[|Header| - 3..] == "ed\n";
  }

  /** A row matches the failure scan exactly when it records a failure. */
  lemma RowMatchesIffFailed(startTime: int, address: string, failed: bool)
    ensures IsFailureLine(Row(startTime, address, failed)) <==> failed
  {
    var row := Row(startTime, address, failed);
    assert row[|row| - 3..] == if failed then FailedEnding else ",0\n";
  }

  /** Splitting on the first comma gives back a comma-free prefix. */
  lemma {:induction false} FirstFieldOfJoin(field: string, rest: string)
    requires ',' !in field
    ensures FirstField(field + [','] + rest) == field
  {
    if field != [] {
      assert (field + [','] + rest)[1..] == field[1..] + [','] + rest;
      FirstFieldOfJoin(field[1..], rest);
    }
  }

  /** The first field of a row is the timestamp it was written with, whatever the address. */
  lemma RowFirstField(startTime: int, address: string, failed: bool)
    ensures FirstField(Row(startTime, address, failed)) == FormatTimestamp(startTime)
  {
    var t := FormatTimestamp(startTime);
    var rest := address + (if failed then FailedEnding else ",0\n");
    assert Row(startTime, address, failed) == t + [','] + rest;
    FirstFieldOfJoin(t, rest);
  }

  /**
   * The first field of the last line, in file order, that ends with ",1\n"
   * (the loop at infiping.py:49-51). Addresses are not looked at.
   */
  function LastFailureField(lines: seq<string>): Option<string> {
    if lines == [] then None
    else if IsFailureLine(lines[|lines| - 1]) then Some(FirstField(lines[|lines| - 1]))
    else LastFailureField(lines[..|lines| - 1])
  }

  /** Line `i` is a failure line and no later line is. */
  predicate IsLastMatch(lines: seq<string>, i: int) {
    0 <= i < |lines| && IsFailureLine(lines[i]) &&
    forall j :: i < j < |lines| ==> !IsFailureLine(lines[j])
  }

  /** The scan's result is the first field of the last matching line, and nothing when none matches. */
  lemma {:induction false} LastFailureFieldIsLastMatch(lines: seq<string>)
    ensures LastFailureField(lines) == None <==> forall i :: 0 <= i < |lines| ==> !IsFailureLine(lines[i])
    ensures forall i :: IsLastMatch(lines, i) ==> LastFailureField(lines) == Some(FirstField(lines[i]))
  {
    if lines != [] {
      var n := |lines| - 1;
      var init := lines[..n];
      LastFailureFieldIsLastMatch(init);
      if !IsFailureLine(lines[n]) {
        forall i | IsLastMatch(lines, i)
          ensures IsLastMatch(init, i)
        {
          assert i < n;
        }
        assert forall i :: 0 <= i < n ==> init[i] == lines[i];
      }
    }
  }

  /** The scan loop of infiping.py:49-51, reassigning its result at every matching line. */
  method ScanLastFailure(lines: seq<string>) returns (lastFail: Option<string>)
    ensures lastFail == LastFailureField(lines)
  {
    lastFail := None;
    for i := 0 to |lines|
      invariant lastFail == LastFailureField(lines[..i])
    {
      assert lines[..i + 1][..i] == lines[..i];
      if EndsWith(lines[i], FailedEnding) {
        lastFail := Some(FirstField(lines[i]));
      }
    }
    assert lines[..|lines|] == lines;
  }

  /** What the scan leaves in `lastFail`: no failure, a time, or a field `float()` rejects. */
  datatype Recall = Never | At(time: int) | Unreadable(field: string)

  /** `lastFail` after the scan, read back with `float()`. */
  function LastFailure(lines: seq<string>): Recall {
    match LastFailureField(lines)
    case None => Never
    case Some(field) =>
      match ParseTimestamp(field)
      case None => Unreadable(field)
      case Some(t) => At(t)
  }

  /**
   * What the scan leaves: no failure exactly when no line records one; otherwise the
   * last matching line's field, read as its time when it is a numeral and unreadable
   * when it is not.
   */
  lemma LastFailureMeaning(lines: seq<string>)
    ensures LastFailure(lines).Never? <==> forall i :: 0 <= i < |lines| ==> !IsFailureLine(lines[i])
    ensures forall i :: IsLastMatch(lines, i) ==>
      (LastFailure(lines).Unreadable? <==> !IsNumeral(FirstField(lines[i])))
    ensures forall i :: IsLastMatch(lines, i) && LastFailure(lines).At? ==>
      ParseTimestamp(FirstField(lines[i])) == Some(LastFailure(lines).time)
  {
    LastFailureFieldIsLastMatch(lines);
  }

  /** `lastFail` as the cooldown test uses it: 0 when there never was a failure. */
  function Since(r: Recall): int
    requires !r.Unreadable?
  {
    if r.Never? then 0 else r.time
  }

  /** After a failed probe's row, the last failure is that row, whatever came before. */
  lemma LastFailureAfterFailedRow(lines: seq<string>, startTime: int, address: string)
    ensures LastFailure(lines + [Row(startTime, address, true)]) == At(startTime)
  {
    var row := Row(startTime, address, true);
    RowMatchesIffFailed(startTime, address, true);
    assert (lines + [row])[|lines + [row]| - 1] == row;
    RowFirstField(startTime, address, true);
    TimestampRoundTrip(startTime);
  }

  /** A reachable probe's row leaves the last failure as it was. */
  lemma LastFailureAfterReachableRow(lines: seq<string>, startTime: int, address: string)
    ensures LastFailure(lines + [Row(startTime, address, false)]) == LastFailure(lines)
  {
    var row := Row(startTime, address, false);
    RowMatchesIffFailed(startTime, address, false);
    assert (lines + [row])[..|lines|] == lines;
  }

  /**
   * File order decides, not the larger time, and the address plays no part:
   * of two failure rows the later one in the file is the last failure.
   */
  lemma LastFailureIsLastInFileOrder(t1: int, a1: string, t2: int, a2: string)
    ensures LastFailure([Header, Row(t1, a1, true), Row(t2, a2, true)]) == At(t2)
  {
    LastFailureAfterFailedRow([Header, Row(t1, a1, true)], t2, a2);
    assert [Header, Row(t1, a1, true)] + [Row(t2, a2, true)] == [Header, Row(t1, a1, true), Row(t2, a2, true)];
  }

  /** The cooldown test of infiping.py:58. */
  predicate ShouldWarn(now: int, lastFail: int, minimumTimeUp: int) {
    now >= lastFail + minimumTimeUp
  }

  /** Once the cooldown has run out it stays out for the same log. */
  lemma CooldownMonotone(now: int, later: int, lastFail: int, minimumTimeUp: int)
    requires ShouldWarn(now, lastFail, minimumTimeUp) && now <= later
    ensures ShouldWarn(later, lastFail, minimumTimeUp)
  {
  }

  /** `max(0, timeToWait - elapsed)`: the clamp of infiping.py:63-65. */
  function SleepTime(timeToWait: int, elapsed: int): (sleep: int)
    ensures sleep >= 0
    ensures elapsed <= timeToWait ==> sleep == timeToWait - elapsed
    ensures elapsed > timeToWait ==> sleep == 0
    ensures elapsed >= 0 && timeToWait >= 0 ==> sleep <= timeToWait
  {
    var timeToSleep := timeToWait - elapsed;
    if timeToSleep < 0 then 0 else timeToSleep
  }

  /**
   * What one call of `ping` reports: whether it warned and how long it sleeps,
   * or the `ValueError` raised when the last failure's first field is not a number.
   */
  datatype Outcome = Logged(warned: bool, sleep: int) | Crashed(field: string)

  /** The file as the step sees it after its bootstrap: the header alone when it was absent. */
  function Opened(present: bool, lines: seq<string>): seq<string> {
    if present then lines else [Header]
  }

  /** Opening keeps the log made of logical lines, and a fresh log records no failure. */
  lemma OpenedMeaning(present: bool, lines: seq<string>)
    ensures AllLines(lines) ==> AllLines(Opened(present, lines))
    ensures !present ==> LastFailure(Opened(present, lines)).Never?
  {
    assert IsLine(Header);
    HeaderIsNotFailure();
    LastFailureFieldIsLastMatch([Header]);
  }

  /**
   * The outcome of one step, from the log as it stood before the row is written.
   * `now` is the clock at the cooldown test, `finish` the clock at the pacing step.
   */
  function PingOutcome(before: seq<string>, warn: bool, minimumTimeUp: int, timeToWait: int,
                       reachable: bool, startTime: int, now: int, finish: int): Outcome
  {
    if !reachable && warn then
      match LastFailure(before)
      case Unreadable(field) => Crashed(field)
      case recall => Logged(ShouldWarn(now, Since(recall), minimumTimeUp), SleepTime(timeToWait, finish - startTime))
    else
      Logged(false, SleepTime(timeToWait, finish - startTime))
  }

  /** A warning needs a failed probe and warnings switched on; then it fires iff the cooldown ran out. */
  lemma WarnsIff(before: seq<string>, warn: bool, minimumTimeUp: int, timeToWait: int,
                 reachable: bool, startTime: int, now: int, finish: int)
    ensures var o := PingOutcome(before, warn, minimumTimeUp, timeToWait, reachable, startTime, now, finish);
      && (o.Crashed? <==> !reachable && warn && LastFailure(before).Unreadable?)
      && (o.Logged? ==> (o.warned <==> !reachable && warn && now >= Since(LastFailure(before)) + minimumTimeUp))
      && (o.Logged? ==> o.sleep == SleepTime(timeToWait, finish - startTime))
  {
  }

  /** With no failure row in the log, a failed probe warns iff `now >= minimumTimeUp`. */
  lemma FirstFailureWarns(before: seq<string>, minimumTimeUp: int, timeToWait: int,
                          startTime: int, now: int, finish: int)
    requires forall i :: 0 <= i < |before| ==> !IsFailureLine(before[i])
    ensures PingOutcome(before, true, minimumTimeUp, timeToWait, false, startTime, now, finish)
         == Logged(now >= minimumTimeUp, SleepTime(timeToWait, finish - startTime))
  {
    LastFailureFieldIsLastMatch(before);
  }

  /** For the same log, a step that warns at `now` also warns at every later `now`. */
  lemma WarningMonotoneInNow(before: seq<string>, minimumTimeUp: int, timeToWait: int,
                             startTime: int, now: int, later: int, finish: int)
    requires PingOutcome(before, true, minimumTimeUp, timeToWait, false, startTime, now, finish) == Logged(true, SleepTime(timeToWait, finish - startTime))
    requires now <= later
    ensures PingOutcome(before, true, minimumTimeUp, timeToWait, false, startTime, later, finish) == Logged(true, SleepTime(timeToWait, finish - startTime))
  {
    CooldownMonotone(now, later, Since(LastFailure(before)), minimumTimeUp);
  }

  /** A failure at t=100 with a 60 s cooldown: no warning at 150, a warning at 161. */
  lemma CooldownExample(address: string)
    ensures var before := [Header, Row(100, address, true)];
      && PingOutcome(before, true, 60, 10, false, 150, 150, 150) == Logged(false, 10)
      && PingOutcome(before, true, 60, 10, false, 161, 161, 161) == Logged(true, 10)
  {
    LastFailureAfterFailedRow([Header], 100, address);
    assert [Header] + [Row(100, address, true)] == [Header, Row(100, address, true)];
  }

  /**
   * Failed probes of one address at t=1000, 1005 and 1065 with a 60 s cooldown
   * and a 5 s pace: the first warns, the second does not, the third warns again.
   */
  lemma OutageScenario(address: string)
    ensures var log1 := [Header] + [Row(1000, address, true)];
            var log2 := log1 + [Row(1005, address, true)];
      && PingOutcome([Header], true, 60, 5, false, 1000, 1000, 1001) == Logged(true, 4)
      && PingOutcome(log1, true, 60, 5, false, 1005, 1005, 1006) == Logged(false, 4)
      && PingOutcome(log2, true, 60, 5, false, 1065, 1065, 1066) == Logged(true, 4)
  {
    HeaderIsNotFailure();
    LastFailureFieldIsLastMatch([Header]);
    var log1 := [Header] + [Row(1000, address, true)];
    LastFailureAfterFailedRow([Header], 1000, address);
    LastFailureAfterFailedRow(log1, 1005, address);
  }

  /** A first failure in the first `minimumTimeUp` seconds after the epoch does not warn. */
  lemma EarlyFirstFailureIsSilent()
    ensures PingOutcome([Header], true, 60, 5, false, 0, 0, 1) == Logged(false, 4)
  {
    HeaderIsNotFailure();
    LastFailureFieldIsLastMatch([Header]);
  }

  /** One probe's clock readings in a run of several steps. */
  datatype Reading = Reading(reachable: bool, startTime: int, now: int, finish: int)

  /** The rows a run of steps appends, the k-th probing `addresses[k % |addresses|]`. */
  function Rows(addresses: seq<string>, readings: seq<Reading>): (rows: seq<string>)
    requires |addresses| > 0
    ensures |rows| == |readings|
  {
    if readings == [] then []
    else
      var k := |readings| - 1;
      Rows(addresses, readings[..k]) + [Row(readings[k].startTime, addresses[k % |addresses|], !readings[k].reachable)]
  }

  lemma RowsStep(addresses: seq<string>, readings: seq<Reading>, k: nat)
    requires |addresses| > 0 && k < |readings|
    ensures Rows(addresses, readings[..k + 1])
         == Rows(addresses, readings[..k]) + [Row(readings[k].startTime, addresses[k % |addresses|], !readings[k].reachable)]
  {
    assert readings[..k + 1][..k] == readings[..k];
  }

  /** The outcome step k of a run reports, from the log as the k steps before it left it. */
  function Expected(start: seq<string>, addresses: seq<string>, warn: bool, minimumTimeUp: int,
                    timeToWait: int, readings: seq<Reading>, k: nat): Outcome
    requires |addresses| > 0 && k < |readings|
  {
    PingOutcome(start + Rows(addresses, readings[..k]), warn, minimumTimeUp, timeToWait,
                readings[k].reachable, readings[k].startTime, readings[k].now, readings[k].finish)
  }

  /** The outcomes of the first n steps of a run. */
  function Trace(start: seq<string>, addresses: seq<string>, warn: bool, minimumTimeUp: int,
                 timeToWait: int, readings: seq<Reading>, n: nat): (outcomes: seq<Outcome>)
    requires |addresses| > 0 && n <= |readings|
    ensures |outcomes| == n
  {
    if n == 0 then []
    else Trace(start, addresses, warn, minimumTimeUp, timeToWait, readings, n - 1)
         + [Expected(start, addresses, warn, minimumTimeUp, timeToWait, readings, n - 1)]
  }

  lemma TraceStep(start: seq<string>, addresses: seq<string>, warn: bool, minimumTimeUp: int,
                  timeToWait: int, readings: seq<Reading>, k: nat, o: Outcome)
    requires |addresses| > 0 && k < |readings|
    requires o == Expected(start, addresses, warn, minimumTimeUp, timeToWait, readings, k)
    ensures Trace(start, addresses, warn, minimumTimeUp, timeToWait, readings, k + 1)
         == Trace(start, addresses, warn, minimumTimeUp, timeToWait, readings, k) + [o]
  {
  }

  /** Step k of a trace reports what the step would from the log the k steps before it left. */
  lemma {:induction false} TraceAt(start: seq<string>, addresses: seq<string>, warn: bool, minimumTimeUp: int,
                                   timeToWait: int, readings: seq<Reading>, n: nat, k: nat)
    requires |addresses| > 0 && k < n <= |readings|
    ensures Trace(start, addresses, warn, minimumTimeUp, timeToWait, readings, n)[k]
         == Expected(start, addresses, warn, minimumTimeUp, timeToWait, readings, k)
  {
    if k < n - 1 {
      TraceAt(start, addresses, warn, minimumTimeUp, timeToWait, readings, n - 1, k);
    }
  }

  /** Every step of a trace is the outcome `Expected` names for it. */
  lemma TraceMeaning(start: seq<string>, addresses: seq<string>, warn: bool, minimumTimeUp: int,
                     timeToWait: int, readings: seq<Reading>, n: nat)
    requires |addresses| > 0 && n <= |readings|
    ensures forall k :: 0 <= k < n ==>
      Trace(start, addresses, warn, minimumTimeUp, timeToWait, readings, n)[k]
      == Expected(start, addresses, warn, minimumTimeUp, timeToWait, readings, k)
  {
    forall k | 0 <= k < n
      ensures Trace(start, addresses, warn, minimumTimeUp, timeToWait, readings, n)[k]
           == Expected(start, addresses, warn, minimumTimeUp, timeToWait, readings, k)
    {
      TraceAt(start, addresses, warn, minimumTimeUp, timeToWait, readings, n, k);
    }
  }

  /** The CSV log: absent, or present with its logical lines. */
  class CsvFile {
    var present: bool
    var lines: seq<string>

    ghost predicate Valid()
      reads this
    {
      (!present ==> lines == []) && AllLines(lines)
    }

    constructor Absent()
      ensures Valid() && !present && lines == []
    {
      present := false;
      lines := [];
    }

    constructor Existing(content: seq<string>)
      requires AllLines(content)
      ensures Valid() && present && lines == content
    {
      present := true;
      lines := content;
    }

    /**
     * `ping(address, filename, warn, minimumTimeUp, timeToWait)` with the probe's
     * result and the clock readings passed in. The header is written only when the
     * file was absent; then exactly one row is appended, unless reading back the
     * last failure raised.
     */
    method Ping(address: string, warn: bool, minimumTimeUp: int, timeToWait: int,
                reachable: bool, startTime: int, now: int, finish: int) returns (outcome: Outcome)
      requires Valid() && NoTerminator(address)
      modifies this
      ensures Valid() && present
      ensures outcome == PingOutcome(Opened(old(present), old(lines)), warn, minimumTimeUp, timeToWait,
                                     reachable, startTime, now, finish)
      ensures lines == Opened(old(present), old(lines))
                       + (if outcome.Logged? then [Row(startTime, address, !reachable)] else [])
    {
      if !present {
        present := true;
        lines := [Header];
        assert IsLine(Header);
      }
      ghost var before := lines;
      var row := Row(startTime, address, !reachable);
      RowIsLine(startTime, address, !reachable);
      var warned := false;
      if !reachable && warn {
        var field := ScanLastFailure(lines);
        var lastFail := 0;
        if field.Some? {
          var parsed := ParseTimestamp(field.value);
          if parsed.None? {
            return Crashed(field.value);
          }
          lastFail := parsed.value;
        }
        assert !LastFailure(before).Unreadable? && lastFail == Since(LastFailure(before));
        warned := now >= lastFail + minimumTimeUp;
      }
      AppendLine(lines, row);
      lines := lines + [row];
      var timeToSleep := timeToWait - (finish - startTime);
      if timeToSleep < 0 {
        timeToSleep := 0;
      }
      outcome := Logged(warned, timeToSleep);
    }

    /** Step k of a run: probe `addresses[k % |addresses|]` with `readings[k]`. */
    method PingNext(ghost start: seq<string>, addresses: seq<string>, warn: bool, minimumTimeUp: int,
                    timeToWait: int, readings: seq<Reading>, k: nat, ghost done: seq<Outcome>) returns (outcome: Outcome)
      requires Valid() && |addresses| > 0 && k < |readings|
      requires forall i :: 0 <= i < |addresses| ==> NoTerminator(addresses[i])
      requires Opened(present, lines) == start + Rows(addresses, readings[..k])
      requires done == Trace(start, addresses, warn, minimumTimeUp, timeToWait, readings, k)
      modifies this
      ensures Valid() && present
      ensures outcome == Expected(start, addresses, warn, minimumTimeUp, timeToWait, readings, k)
      ensures done + [outcome] == Trace(start, addresses, warn, minimumTimeUp, timeToWait, readings, k + 1)
      ensures lines == start + Rows(addresses, readings[..if outcome.Logged? then k + 1 else k])
    {
      var r := readings[k];
      outcome := Ping(addresses[k % |addresses|], warn, minimumTimeUp, timeToWait, r.reachable, r.startTime, r.now, r.finish);
      RowsStep(addresses, readings, k);
      TraceStep(start, addresses, warn, minimumTimeUp, timeToWait, readings, k, outcome);
    }

    /**
     * A bounded prefix of the endless round robin of infiping.py:148-150: step k probes
     * `addresses[k % |addresses|]` with `readings[k]`. A crash ends the run, as the
     * uncaught exception ends the program.
     */
    method RunRounds(addresses: seq<string>, warn: bool, minimumTimeUp: int, timeToWait: int,
                     readings: seq<Reading>) returns (outcomes: seq<Outcome>)
      requires Valid() && |addresses| > 0 && |readings| > 0
      requires forall i :: 0 <= i < |addresses| ==> NoTerminator(addresses[i])
      modifies this
      ensures Valid() && present
      ensures 0 < |outcomes| <= |readings|
      ensures forall k :: 0 <= k < |outcomes| - 1 ==> outcomes[k].Logged?
      ensures |outcomes| < |readings| ==> outcomes[|outcomes| - 1].Crashed?
      ensures forall k :: 0 <= k < |outcomes| ==>
        outcomes[k] == Expected(Opened(old(present), old(lines)), addresses, warn, minimumTimeUp, timeToWait, readings, k)
      ensures var done := if outcomes[|outcomes| - 1].Crashed? then |outcomes| - 1 else |outcomes|;
        lines == Opened(old(present), old(lines)) + Rows(addresses, readings[..done])
    {
      ghost var start := Opened(present, lines);
      outcomes := Rounds(start, addresses, warn, minimumTimeUp, timeToWait, readings);
      TraceMeaning(start, addresses, warn, minimumTimeUp, timeToWait, readings, |outcomes|);
    }

    /** The loop of `RunRounds`, from the log as the first step opens it. */
    method Rounds(ghost start: seq<string>, addresses: seq<string>, warn: bool, minimumTimeUp: int,
                  timeToWait: int, readings: seq<Reading>) returns (outcomes: seq<Outcome>)
      requires Valid() && |addresses| > 0 && |readings| > 0
      requires forall i :: 0 <= i < |addresses| ==> NoTerminator(addresses[i])
      requires Opened(present, lines) == start
      modifies this
      ensures Valid() && present
      ensures 0 < |outcomes| <= |readings|
      ensures forall k :: 0 <= k < |outcomes| - 1 ==> outcomes[k].Logged?
      ensures |outcomes| < |readings| ==> outcomes[|outcomes| - 1].Crashed?
      ensures outcomes == Trace(start, addresses, warn, minimumTimeUp, timeToWait, readings, |outcomes|)
      ensures var done := if outcomes[|outcomes| - 1].Crashed? then |outcomes| - 1 else |outcomes|;
        lines == start + Rows(addresses, readings[..done])
    {
      outcomes := [];
      var k := 0;
      while k < |readings| && (k == 0 || outcomes[k - 1].Logged?)
        invariant 0 <= k <= |readings| && |outcomes| == k
        invariant Valid() && (k > 0 ==> present)
        invariant forall j :: 0 <= j < k - 1 ==> outcomes[j].Logged?
        invariant outcomes == Trace(start, addresses, warn, minimumTimeUp, timeToWait, readings, k)
        invariant k == 0 ==> Opened(present, lines) == start
        invariant k > 0 ==> var done := if outcomes[k - 1].Crashed? then k - 1 else k;
          lines == start + Rows(addresses, readings[..done])
      {
        var o := PingNext(start, addresses, warn, minimumTimeUp, timeToWait, readings, k, outcomes);
        outcomes := outcomes + [o];
        k := k + 1;
      }
    }
  }
}
