/**
 * The race scheduler lambda (lib/lambdas/getRacesF1.ts): decide whether the
 * latest session is new, compute its activation window, start one workflow
 * execution for it and record it in the ledger table.
 *
 * The ledger table is a map from session key to record; the workflow service
 * is the list of executions started so far; how the three services answer
 * during one run (lookup error, start rejected or its ARN, write error) is a
 * parameter.
 */
module Races {
  import opened Wrappers
  import opened Dates
  import Decimal

  /** One session descriptor of the feed (ISession). */
  datatype Session = Session(
    session_key: int,
    session_name: string,
    date_start: DateText,
    date_end: DateText,
    gmt_offset: string,
    session_type: string,
    meeting_key: int,
    location: string,
    country_key: int,
    country_code: string,
    country_name: string,
    circuit_key: int,
    circuit_short_name: string,
    year: int)

  /** The workflow input (iParams). Wait times are time values; their ISO-8601 text is not modelled. */
  datatype WorkflowInput = WorkflowInput(session_key: int, match_start: string, waitTime1: int, waitTime2: int)

  /** One started workflow execution and the ARN the service returned for it. */
  datatype Execution = Execution(name: string, input: WorkflowInput, arn: string)

  /** One item of the ledger table. */
  datatype Record = Record(session_key: int, step_function_arn: string, date: string, year: int)

  /** The ledger table, keyed by session key. */
  type Ledger = map<int, Record>

  /** Everything a run can change: the ledger and the executions started so far. */
  datatype World = World(ledger: Ledger, executions: seq<Execution>)

  /** How the services answer during one run; `startArn` is None when StartExecution rejects. */
  datatype Services = Services(lookupFails: bool, startArn: Option<string>, putFails: bool)

  /** The two ways calculateWaitTimes throws: an unparsable date, or a shifted value toISOString rejects. */
  datatype WaitError = InvalidDate | InvalidTimeValue

  /** Why createMachines gave up on a race (its catch block logs and swallows each). */
  datatype CreateError = BadWaitTime(cause: WaitError) | StartRejected | SaveRejected

  /** What one run of the handler ends with, as it logs it. */
  datatype Outcome = NoRaceData | FinishedRace | Created(arn: string) | CreateFailed(cause: CreateError)

  datatype Run = Run(world: World, outcome: Outcome)

  /** The signed margin applied to a window edge: one hour earlier for the start, later for the end. */
  function Margin(subtract: bool): int {
    if subtract then -HourMs else HourMs
  }

  /** calculateWaitTimes: the date moved by exactly one hour, or the error it throws. */
  function CalculateWaitTimes(date: DateText, subtract: bool): (r: Result<int, WaitError>)
    ensures r == Failure(InvalidDate) <==> TimeValue(date).None?
    ensures TimeValue(date).Some? ==>
      (r.Success? <==> InRange(TimeValue(date).value + Margin(subtract)))
    ensures r.Success? ==> r.value == TimeValue(date).value + Margin(subtract) && InRange(r.value)
  {
    var t := TimeValue(date);
    if t.None? then Failure(InvalidDate)
    else
      var adjusted := TimeClip(Some(t.value + (if subtract then -1 else 1) * 60 * 60 * 1000));
      if adjusted.None? then Failure(InvalidTimeValue) else Success(adjusted.value)
  }

  /** Shifting a computed edge back by the opposite margin recovers the original time value. */
  lemma WaitTimeRoundTrip(date: DateText, subtract: bool, text: string)
    requires CalculateWaitTimes(date, subtract).Success?
    ensures CalculateWaitTimes(DateText(text, Some(CalculateWaitTimes(date, subtract).value)), !subtract)
            == Success(TimeValue(date).value)
  {
  }

  /** The inputData object of createMachines; the start edge is computed first, so its error wins. */
  function BuildInput(race: Session): (r: Result<WorkflowInput, WaitError>)
    ensures CalculateWaitTimes(race.date_start, true).Failure? ==>
      r == Failure(CalculateWaitTimes(race.date_start, true).error)
    ensures r.Success? <==>
      CalculateWaitTimes(race.date_start, true).Success? && CalculateWaitTimes(race.date_end, false).Success?
    ensures r.Success? ==>
      && r.value.session_key == race.session_key
      && r.value.match_start == race.date_start.text
      && r.value.waitTime1 == TimeValue(race.date_start).value - HourMs
      && r.value.waitTime2 == TimeValue(race.date_end).value + HourMs
  {
    match CalculateWaitTimes(race.date_start, true)
    case Failure(e) => Failure(e)
    case Success(w1) =>
      match CalculateWaitTimes(race.date_end, false)
      case Failure(e) => Failure(e)
      case Success(w2) => Success(WorkflowInput(race.session_key, race.date_start.text, w1, w2))
  }

  /** The window is the session widened by one hour on each side, so it is ordered whenever the session is. */
  lemma WindowWidth(race: Session)
    requires BuildInput(race).Success?
    ensures var input := BuildInput(race).value;
      && input.waitTime2 - input.waitTime1
         == (TimeValue(race.date_end).value - TimeValue(race.date_start).value) + 2 * HourMs
      && (TimeValue(race.date_start).value <= TimeValue(race.date_end).value ==> input.waitTime1 < input.waitTime2)
  {
  }

  const NamePrefix: string := "Session-"

  /**
   * The execution name `Session-<year>-<session key>`: year and session key
   * can be read back out of it.
   */
  function ExecutionName(year: int, key: int): (r: string)
    ensures |r| > |NamePrefix| && r[..|NamePrefix|] == NamePrefix
    ensures ParseExecutionName(r) == Some((year, key))
  {
    NameParsesBack(year, key);
    NamePrefix + Decimal.IntToString(year) + "-" + Decimal.IntToString(key)
  }

  /** The first index at or after `from` holding a minus sign, or |s| if there is none. */
  function FindDash(s: string, from: nat): (k: nat)
    requires from <= |s|
    ensures from <= k <= |s|
    ensures k < |s| ==> s[k] == '-'
    ensures forall m :: from <= m < k ==> s[m] != '-'
    decreases |s| - from
  {
    if from == |s| || s[from] == '-' then from else FindDash(s, from + 1)
  }

  /** Reads the year and session key back out of an execution name. */
  function ParseExecutionName(name: string): (r: Option<(int, int)>)
    ensures r.Some? ==> |name| > |NamePrefix| && name[..|NamePrefix|] == NamePrefix
  {
    if |name| < |NamePrefix| + 1 || name[..|NamePrefix|] != NamePrefix then None
    else
      var rest := name[|NamePrefix|..];
      var j := FindDash(rest, 1);
      if j == |rest| then None
      else
        match (Decimal.ParseInt(rest[..j]), Decimal.ParseInt(rest[j + 1..]))
        case (Some(year), Some(key)) => Some((year, key))
        case _ => None
  }

  /**
   * A name spelled from a year text without an inner minus sign and a key
   * text splits at the dash that joins them.
   */
  lemma ParseSpelled(y: string, k: string)
    requires |y| > 0 && forall m :: 1 <= m < |y| ==> y[m] != '-'
    requires Decimal.ParseInt(y).Some? && Decimal.ParseInt(k).Some?
    ensures ParseExecutionName(NamePrefix + y + "-" + k) == Some((Decimal.ParseInt(y).value, Decimal.ParseInt(k).value))
  {
    var name := NamePrefix + y + "-" + k;
    var rest := y + "-" + k;
    assert name == NamePrefix + rest;
    assert name[..|NamePrefix|] == NamePrefix;
    assert name[|NamePrefix|..] == rest;
    var j := FindDash(rest, 1);
    assert rest[|y|] == '-';
    assert forall m :: 1 <= m < |y| ==> rest[m] == y[m];
    assert j == |y|;
    assert rest[..j] == y;
    assert rest[j + 1..] == k;
  }

  /** The round trip behind ExecutionName, on the name spelled out. */
  lemma NameParsesBack(year: int, key: int)
    ensures var name := NamePrefix + Decimal.IntToString(year) + "-" + Decimal.IntToString(key);
      ParseExecutionName(name) == Some((year, key))
  {
    Decimal.NoInnerMinus(year);
    Decimal.IntRoundTrip(year);
    Decimal.IntRoundTrip(key);
    ParseSpelled(Decimal.IntToString(year), Decimal.IntToString(key));
  }

  /** Two races get the same execution name only if year and session key both agree. */
  lemma ExecutionNameInjective(y1: int, k1: int, y2: int, k2: int)
    ensures ExecutionName(y1, k1) == ExecutionName(y2, k2) <==> y1 == y2 && k1 == k2
  {
    var n1, n2 := ExecutionName(y1, k1), ExecutionName(y2, k2);
    assert n1 == n2 ==> ParseExecutionName(n1) == ParseExecutionName(n2);
  }

  /** getItemById: a lookup error is reported as "no item". */
  function GetItemById(ledger: Ledger, id: int, lookupFails: bool): (r: Option<Record>)
    ensures lookupFails ==> r == None
    ensures !lookupFails ==> (r.Some? <==> id in ledger)
    ensures r.Some? ==> id in ledger && r.value == ledger[id]
  {
    if lookupFails then None
    else if id in ledger then Some(ledger[id])
    else None
  }

  /** The item saveRaceToDynamoDB writes for a race whose execution has `arn`. */
  function RecordFor(race: Session, arn: string): Record {
    Record(race.session_key, arn, race.date_start.text, race.year)
  }

  /** saveRaceToDynamoDB: an unconditional put under the session key, or the error it rethrows. */
  function SaveRace(ledger: Ledger, race: Session, arn: string, putFails: bool): (r: Result<Ledger, CreateError>)
    ensures putFails <==> r.Failure?
    ensures r.Success? ==>
      && r.value.Keys == ledger.Keys + {race.session_key}
      && r.value[race.session_key] == RecordFor(race, arn)
      && forall k :: k in ledger && k != race.session_key ==> r.value[k] == ledger[k]
  {
    if putFails then Failure(SaveRejected) else Success(ledger[race.session_key := RecordFor(race, arn)])
  }

  /** createMachines: build the input, start the execution, then save the record; every error is swallowed. */
  function CreateMachines(race: Session, currentYear: int, w: World, svc: Services): (r: Run)
    ensures r.outcome.Created? <==> BuildInput(race).Success? && svc.startArn.Some? && !svc.putFails
    ensures r.outcome.Created? ==>
      && r.outcome.arn == svc.startArn.value
      && r.world.ledger == w.ledger[race.session_key := RecordFor(race, r.outcome.arn)]
    ensures !r.outcome.Created? ==> r.outcome.CreateFailed? && r.world.ledger == w.ledger
    ensures r.world.executions == w.executions <==> BuildInput(race).Failure? || svc.startArn.None?
    ensures r.world.executions != w.executions ==>
      r.world.executions == w.executions
        + [Execution(ExecutionName(currentYear, race.session_key), BuildInput(race).value, svc.startArn.value)]
  {
    match BuildInput(race)
    case Failure(e) => Run(w, CreateFailed(BadWaitTime(e)))
    case Success(input) =>
      match svc.startArn
      case None => Run(w, CreateFailed(StartRejected))
      case Some(arn) =>
        var started := w.executions + [Execution(ExecutionName(currentYear, race.session_key), input, arn)];
        match SaveRace(w.ledger, race, arn, svc.putFails)
        case Failure(e) => Run(World(w.ledger, started), CreateFailed(e))
        case Success(ledger) => Run(World(ledger, started), Created(arn))
  }

  /**
   * handler: with no race nothing happens; a race already in the ledger is a
   * finished race; otherwise its workflow is created. Nothing escapes.
   */
  function Handler(race: Option<Session>, currentYear: int, w: World, svc: Services): (r: Run)
    ensures |w.executions| <= |r.world.executions| <= |w.executions| + 1
    ensures r.world.executions[..|w.executions|] == w.executions
    ensures forall k :: race.None? || k != race.value.session_key ==>
      (k in r.world.ledger <==> k in w.ledger) && (k in w.ledger ==> r.world.ledger[k] == w.ledger[k])
    ensures race.None? <==> r.outcome == NoRaceData
  {
    if race.None? then Run(w, NoRaceData)
    else if GetItemById(w.ledger, race.value.session_key, svc.lookupFails).Some? then Run(w, FinishedRace)
    else CreateMachines(race.value, currentYear, w, svc)
  }

  /** A race whose key the ledger answers for is skipped: no execution, no write. */
  lemma KnownRaceSkipped(race: Session, currentYear: int, w: World, svc: Services)
    requires !svc.lookupFails && race.session_key in w.ledger
    ensures Handler(Some(race), currentYear, w, svc) == Run(w, FinishedRace)
  {
  }

  /** A new race with valid dates and working services gets exactly one execution and one record. */
  lemma NewRaceScheduled(race: Session, currentYear: int, w: World, svc: Services, arn: string)
    requires race.session_key !in w.ledger
    requires BuildInput(race).Success?
    requires svc.startArn == Some(arn) && !svc.putFails
    ensures var r := Handler(Some(race), currentYear, w, svc);
      && r.outcome == Created(arn)
      && r.world.executions
         == w.executions + [Execution(ExecutionName(currentYear, race.session_key), BuildInput(race).value, arn)]
      && r.world.ledger == w.ledger[race.session_key := Record(race.session_key, arn, race.date_start.text, race.year)]
  {
  }

  /** When the execution cannot be started (bad dates or a rejected start) nothing at all changes. */
  lemma FailedStartWritesNothing(race: Session, currentYear: int, w: World, svc: Services)
    requires race.session_key !in w.ledger
    requires BuildInput(race).Failure? || svc.startArn.None?
    ensures var r := Handler(Some(race), currentYear, w, svc);
      r.world == w && r.outcome.CreateFailed? && !r.outcome.cause.SaveRejected?
  {
  }

  /** An unparsable start date is reported as such and starts nothing. */
  lemma InvalidStartReported(race: Session, currentYear: int, w: World, svc: Services)
    requires race.session_key !in w.ledger
    requires TimeValue(race.date_start).None?
    ensures Handler(Some(race), currentYear, w, svc) == Run(w, CreateFailed(BadWaitTime(InvalidDate)))
  {
  }

  /** A failed write leaves an execution running with no record of it. */
  lemma FailedSaveLeavesOrphan(race: Session, currentYear: int, w: World, svc: Services, arn: string)
    requires race.session_key !in w.ledger
    requires BuildInput(race).Success?
    requires svc.startArn == Some(arn) && svc.putFails
    ensures var r := Handler(Some(race), currentYear, w, svc);
      && r.outcome == CreateFailed(SaveRejected)
      && r.world.ledger == w.ledger
      && |r.world.executions| == |w.executions| + 1
      && r.world.executions[|w.executions|].arn == arn
  {
  }

  /** A lookup error makes the handler treat even a recorded race as new. */
  lemma LookupErrorTreatedAsNew(race: Session, currentYear: int, w: World, svc: Services)
    requires svc.lookupFails
    ensures Handler(Some(race), currentYear, w, svc) == CreateMachines(race, currentYear, w, svc)
  {
  }

  /** Every record is keyed by its own session key and names an execution that was started. */
  ghost predicate Consistent(w: World) {
    forall k :: k in w.ledger ==>
      && w.ledger[k].session_key == k
      && exists i :: 0 <= i < |w.executions| && w.executions[i].arn == w.ledger[k].step_function_arn
  }

  /** The handler keeps the ledger consistent with the executions it started. */
  lemma HandlerPreservesConsistency(race: Option<Session>, currentYear: int, w: World, svc: Services)
    requires Consistent(w)
    ensures Consistent(Handler(race, currentYear, w, svc).world)
  {
    var r := Handler(race, currentYear, w, svc);
    forall k | k in r.world.ledger
      ensures r.world.ledger[k].session_key == k
      ensures exists i :: 0 <= i < |r.world.executions|
                && r.world.executions[i].arn == r.world.ledger[k].step_function_arn
    {
      if k in w.ledger && (race.None? || k != race.value.session_key || r.world.ledger[k] == w.ledger[k]) {
        var i :| 0 <= i < |w.executions| && w.executions[i].arn == w.ledger[k].step_function_arn;
        assert r.world.executions[i] == w.executions[i];
      } else {
        var n := |w.executions|;
        assert r.world.executions[n].arn == r.world.ledger[k].step_function_arn;
      }
    }
  }

  /** A second run after one that left the race recorded starts nothing and writes nothing. */
  lemma HandlerIdempotent(race: Session, currentYear: int, w: World, first: Services, second: Services)
    requires Handler(Some(race), currentYear, w, first).outcome.Created?
    requires !second.lookupFails
    ensures var r1 := Handler(Some(race), currentYear, w, first);
      var r2 := Handler(Some(race), currentYear, r1.world, second);
      && r2 == Run(r1.world, FinishedRace)
      && |r2.world.executions| == |w.executions| + 1
      && r2.world.ledger.Keys == w.ledger.Keys + {race.session_key}
  {
  }

  /** With a lookup error, even a recorded race is started again and its record overwritten. */
  lemma LookupErrorReschedules(race: Session, currentYear: int, w: World, svc: Services, arn: string)
    requires race.session_key in w.ledger
    requires svc.lookupFails && svc.startArn == Some(arn) && !svc.putFails
    requires BuildInput(race).Success?
    ensures var r := Handler(Some(race), currentYear, w, svc);
      && |r.world.executions| == |w.executions| + 1
      && r.world.ledger[race.session_key].step_function_arn == arn
  {
  }

  // ---------------------------------------------------------------------------
  // The handler as written: the fetched feed is overwritten by a literal.

  /** The session literal the handler assigns over the fetched one. */
  const HardCodedRace: Session := Session(
    10035, "Race",
    DateText("2025-05-16T13:00:00+00:00", Some(1747400400000)),
    DateText("2025-05-16T15:00:00+00:00", Some(1747407600000)),
    "-04:00:00", "Race", 1259, "Miami", 19, "USA", "United States", 151, "Miami", 2025)

  /** handler as written: the first fetched session is read and then replaced by the literal. */
  function HandlerAsWritten(feed: seq<Session>, currentYear: int, w: World, svc: Services): (r: Run)
    ensures r.outcome != NoRaceData
  {
    var latestRace := if |feed| > 0 then Some(feed[0]) else None;
    Handler(Some(HardCodedRace), currentYear, w, svc)
  }

  /** The corrected handler: the first fetched session, or "no race data" for an empty feed. */
  function HandleFeed(feed: seq<Session>, currentYear: int, w: World, svc: Services): (r: Run)
    ensures |feed| == 0 <==> r == Run(w, NoRaceData)
    ensures r.outcome.Created? ==>
      && feed[0].session_key in r.world.ledger
      && r.world.ledger[feed[0].session_key] == RecordFor(feed[0], r.outcome.arn)
  {
    Handler(if |feed| > 0 then Some(feed[0]) else None, currentYear, w, svc)
  }

  /** The scenario session 9531 (2025-01-24, 20:00 to 22:00 UTC). */
  const Race9531: Session := Session(
    9531, "Race",
    DateText("2025-01-24T20:00:00Z", Some(1737748800000)),
    DateText("2025-01-24T22:00:00Z", Some(1737756000000)),
    "00:00:00", "Race", 1, "Somewhere", 1, "XX", "Country", 1, "Circuit", 2025)

  /**
   * With a feed announcing session 9531 and an empty ledger, the handler as
   * written schedules session 10035 instead, while the corrected handler
   * schedules 9531 with its window one hour wider on each side.
   */
  lemma AsWrittenIgnoresFeed(arn: string)
    ensures var svc := Services(false, Some(arn), false);
      var asWritten := HandlerAsWritten([Race9531], 2025, World(map[], []), svc);
      var corrected := HandleFeed([Race9531], 2025, World(map[], []), svc);
      && asWritten.world.ledger.Keys == {10035}
      && corrected.world.ledger == map[9531 := Record(9531, arn, "2025-01-24T20:00:00Z", 2025)]
      && corrected.world.executions
         == [Execution(ExecutionName(2025, 9531),
                       WorkflowInput(9531, "2025-01-24T20:00:00Z", 1737745200000, 1737759600000), arn)]
  {
  }
}
