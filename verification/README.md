# jsonF1 race-window scheduler and live-position reducer, in Dafny

This project models the logic of the jsonF1 Formula 1 tracker, which runs as AWS Lambda functions:

- **Race scheduler** (`lib/lambdas/getRacesF1.ts`). It takes the latest session and looks its `session_key` up in the ledger table. A session already there is a "finished race". Otherwise it computes the activation window: one hour before `date_start` to one hour after `date_end`. It starts one workflow execution named `Session-<year>-<session_key>` and then writes the ledger record `{session_key, step_function_arn, date, year}`.
- **Live positions** (`lib/lambdas/getDataOpenF1.ts`). `getTop20` keeps the latest entry per position, sorts them by position and keeps at most twenty. `mergeDriverData` spreads each position with the last driver of the same `driver_number`.
- **Polling-rule toggle** (`lib/lambdas/controlLambda.ts`). The action `enable` or `disable` switches the recurring fetch rule. Any other action changes nothing. The event is echoed back unless the service call throws.
- **Configuration check** (`bin/getAppConfig.ts`). It reads seven environment variables. It fails with a message listing, in declaration order, those that are undefined or empty.

Modules: `Wrappers` (Option/Result), `Dates` (time values), `Decimal` (number text), `Races`, `Positions`, `Control`, `AppConfig`.

Collaborators are modelled as values:
- The DynamoDB table is a `map<int, Record>`.
- Step Functions is the list of executions started so far.
- The events rule is a `bool`.
- What each service answers in a run is a parameter: `Races.Services` (a lookup error, a rejected start or the returned ARN, a write error) and `toggleFails` in `Control.Handle`.
- A date string is a `Dates.DateText`: the text together with the milliseconds the engine's parser reads from it, `None` when unparsable.
- `getTime()` is `TimeClip` of that value: a magnitude over 8.64e15 ms is NaN. So `calculateWaitTimes` has two error paths. One is the unparsable date that the source tests for. The other is a shifted value that `toISOString` rejects.

Facts about the code that shape the model:
- The ledger write is an unconditional put. It is guarded only by the preceding lookup. So a lookup error re-schedules a recorded race when the service accepts the start (`Races.LookupErrorReschedules`).
- The code has no category/year filter, no batch lookup by year, no conditional write, no workflow definition, no retries, no per-event summary and no reference count. One session is handled per run.
- The rule toggle is a plain boolean with no count of overlapping windows (`Control.OverlappingWindowsDisable`).

## Model

| member | source | states |
|---|---|---|
| `Dates.TimeValue` | lib/lambdas/getRacesF1.ts:114-116 | `new Date(s).getTime()` is the parsed value when it is within ±8.64e15 ms, and NaN (None) otherwise |
| `Decimal.IntRoundTrip` | lib/lambdas/getRacesF1.ts:77 | the decimal text interpolated for a whole number parses back to that number |
| `Races.CalculateWaitTimes` | lib/lambdas/getRacesF1.ts:113-125 | an unparsable date always yields the invalid-date error and never a time; otherwise the result is the time shifted by exactly −1 h (start) or +1 h (end), or the range error when that shift leaves the Date range |
| `Races.WaitTimeRoundTrip` | lib/lambdas/getRacesF1.ts:120-122 | shifting a computed edge by the opposite margin gives back the original time value |
| `Races.BuildInput` | lib/lambdas/getRacesF1.ts:68-73 | the workflow input copies `session_key`, uses the start text as `match_start`, and has `waitTime1 = start − 1h`, `waitTime2 = end + 1h`; it fails exactly when either edge fails, with the start's error first |
| `Races.WindowWidth` | lib/lambdas/getRacesF1.ts:68-73 | `waitTime2 − waitTime1 = (end − start) + 2h`, so the window is ordered whenever the session is |
| `Races.ExecutionName` | lib/lambdas/getRacesF1.ts:77 | the name `Session-<year>-<key>` starts with the prefix, and year and session key can be read back out of it |
| `Races.NameParsesBack` | lib/lambdas/getRacesF1.ts:77 | the name spelled from the decimal texts of year and session key parses back to the pair |
| `Races.ExecutionNameInjective` | lib/lambdas/getRacesF1.ts:77 | two execution names are equal if and only if their years and session keys are |
| `Races.GetItemById` | lib/lambdas/getRacesF1.ts:127-143 | a lookup error reads as "no item"; otherwise the item is found exactly when its key is in the table, with the stored record |
| `Races.SaveRace` | lib/lambdas/getRacesF1.ts:90-111 | a write error fails; otherwise exactly the race's key gets `{session_key, arn, date_start text, year}` and every other key keeps its record |
| `Races.CreateMachines` | lib/lambdas/getRacesF1.ts:64-88 | it creates exactly when the input builds, the start succeeds and the write succeeds; one execution is appended exactly when the input builds and the start succeeds; the ledger changes only on creation |
| `Races.Handler` | lib/lambdas/getRacesF1.ts:18-56 | at most one execution is appended and earlier ones are kept; no ledger key other than the race's changes; "no race data" exactly when there is no race |
| `Races.KnownRaceSkipped` | lib/lambdas/getRacesF1.ts:42-45 | a race whose key the ledger returns is a finished race: nothing is started or written |
| `Races.NewRaceScheduled` | lib/lambdas/getRacesF1.ts:64-96 | a new race with valid dates and working services gets exactly one execution named `Session-<year>-<key>` and exactly one new record under its key |
| `Races.FailedStartWritesNothing` | lib/lambdas/getRacesF1.ts:81-87 | when the input cannot be built or the start is rejected, no record is written, nothing is started and the handler does not throw |
| `Races.InvalidStartReported` | lib/lambdas/getRacesF1.ts:113-118 | an unparsable start date is reported as invalid and starts nothing |
| `Races.FailedSaveLeavesOrphan` | lib/lambdas/getRacesF1.ts:103-110 | a failed write after a successful start leaves the ledger unchanged with one more execution running |
| `Races.LookupErrorTreatedAsNew` | lib/lambdas/getRacesF1.ts:139-142 | with a lookup error the handler behaves exactly as for a new race |
| `Races.LookupErrorReschedules` | lib/lambdas/getRacesF1.ts:98-105 | with a lookup error, a recorded race whose start the service accepts is started again and its record overwritten (the put is unconditional) |
| `Races.HandlerPreservesConsistency` | lib/lambdas/getRacesF1.ts:81-96 | every record stays keyed by its own session key and names the ARN of a started execution |
| `Races.HandlerIdempotent` | lib/lambdas/getRacesF1.ts:42-48 | a second run after a successful one starts nothing and writes nothing: one execution and one new record in total |
| `Races.HandlerAsWritten` | lib/lambdas/getRacesF1.ts:20-38 | the handler as written always handles the hard-coded session, so it never reports "no race data" |
| `Races.HandleFeed` | lib/lambdas/getRacesF1.ts:20-52 | with the first fetched session: an empty feed changes nothing; a creation records that session's key |
| `Races.AsWrittenIgnoresFeed` | lib/lambdas/getRacesF1.ts:21-38 | for a feed announcing session 9531 the code as written schedules 10035; the corrected handler schedules 9531 with window 19:00–23:00 |
| `Positions.Upsert` | lib/lambdas/getDataOpenF1.ts:32-37 | one step adds at most one entry, and every entry afterwards was kept before or is the new one |
| `Positions.LatestPerPosition` | lib/lambdas/getDataOpenF1.ts:25-38 | the reduction has no more entries than the feed, and each is an entry of the feed |
| `Positions.SortByPosition` | lib/lambdas/getDataOpenF1.ts:41 | sorting by position is a permutation of its input |
| `Positions.LatestPerPositionShape` | lib/lambdas/getDataOpenF1.ts:25-38 | the reduction keeps one entry per position of the feed, each an entry of the feed |
| `Positions.LatestPerPositionKeepsLatest` | lib/lambdas/getDataOpenF1.ts:32-36 | each kept entry has the latest date of its position, and on equal dates it is the earliest of them in feed order |
| `Positions.InvalidFirstDateKept` | lib/lambdas/getDataOpenF1.ts:32-36 | a position's first entry with an unparsable date is never replaced, because no date compares later than NaN |
| `Positions.SortAscending` | lib/lambdas/getDataOpenF1.ts:40-41 | sorting entries of distinct positions orders them strictly ascending |
| `Positions.GetTop20` | lib/lambdas/getDataOpenF1.ts:24-44 | length `min(positions, 20)`, strictly ascending by position, every entry from the feed, and any position of the feed left out lies above every reported one |
| `Positions.BeyondSlice` | lib/lambdas/getDataOpenF1.ts:40-42 | in a strictly ascending list, a position missing from the first twenty lies above each of them |
| `Positions.GetTop20Complete` | lib/lambdas/getDataOpenF1.ts:40-42 | with at most 20 positions in the feed, every one of them is reported |
| `Positions.GetTop20KeepsLatest` | lib/lambdas/getDataOpenF1.ts:28-42 | with valid dates, every reported entry is the earliest among the latest-dated entries of its position |
| `Positions.DriverMap` | lib/lambdas/getDataOpenF1.ts:51-54 | the driver map's keys are exactly the listed driver numbers |
| `Positions.DriverMapLastWins` | lib/lambdas/getDataOpenF1.ts:52-54 | each driver number is mapped to the last driver in the list with that number |
| `Positions.MergeDriverData` | lib/lambdas/getDataOpenF1.ts:46-63 | same length and order as the positions; date and position are kept; with a driver of that number, the last such driver's keys and profile override; with none, the entry equals the position |
| `Positions.MergeFindsDriver` | lib/lambdas/getDataOpenF1.ts:57-61 | a position with any driver of its number is merged with a driver profile |
| `Control.ActionOf` | lib/lambdas/controlLambda.ts:17-25 | only the exact strings `enable` and `disable` select a toggle |
| `Control.Handle` | lib/lambdas/controlLambda.ts:6-30 | the missing-parameter warning is logged exactly when the rule name or action is falsy; it returns nothing exactly when an enable/disable call throws (service down, or rule name missing or empty), and then the state is unchanged; otherwise it returns the event itself |
| `Control.EnableTurnsOn` | lib/lambdas/controlLambda.ts:17-19 | with a rule name, `enable` leaves the rule enabled whatever its prior state; without one the call throws and nothing changes |
| `Control.DisableTurnsOff` | lib/lambdas/controlLambda.ts:20-22 | with a rule name, `disable` leaves the rule disabled whatever its prior state; without one the call throws and nothing changes |
| `Control.OtherActionIgnored` | lib/lambdas/controlLambda.ts:23-26 | any other action, a missing one included, leaves the state unchanged and returns the event |
| `Control.MissingParametersOnlyLogged` | lib/lambdas/controlLambda.ts:7-29 | without a rule name the warning is logged and execution continues: an ignored action returns the event; enable/disable throw in the service call, return nothing and leave the state unchanged |
| `Control.MissingActionOnlyLogged` | lib/lambdas/controlLambda.ts:8-26 | with a rule name but no action the warning is logged and the event is returned with the state unchanged |
| `Control.ToggleIdempotent` | lib/lambdas/controlLambda.ts:17-22 | repeating an action that succeeded leaves the state it produced |
| `Control.LastToggleWins` | lib/lambdas/controlLambda.ts:7-26 | while the service is up and a rule name is set, the state after a run is the one asked for by the last enable/disable, or the initial state if there was none; without a rule name it never moves |
| `Control.OverlappingWindowsDisable` | lib/lambdas/controlLambda.ts:17-22 | enable, enable, disable ends disabled: overlapping windows are not counted |
| `AppConfig.Extract` | bin/getAppConfig.ts:17-25 | each of the seven keys takes its own environment variable, undefined when the variable is absent |
| `AppConfig.MissingKeys` | bin/getAppConfig.ts:28-30 | the missing list has no more entries than the keys, and each is one of the keys |
| `AppConfig.MissingKeysExact` | bin/getAppConfig.ts:28-30 | a key is listed exactly when its value is undefined or empty, and the list is a subsequence of the keys in declaration order |
| `AppConfig.MissingKeysOfEnv` | bin/getAppConfig.ts:17-30 | for the seven declared keys, a key is missing exactly when its variable is undefined or empty |
| `AppConfig.KeysWellFormed` | bin/getAppConfig.ts:17-25 | the seven keys are distinct and contain no comma |
| `AppConfig.Join` | bin/getAppConfig.ts:34 | joining no parts gives the empty text; a non-empty list of comma-free parts joined with `", "` splits back into the same list |
| `AppConfig.SplitStep` | bin/getAppConfig.ts:34 | a comma-free part followed by `", "` splits off as the first part |
| `AppConfig.ErrorMessage` | bin/getAppConfig.ts:33-35 | the message starts with the fixed prefix, and a list of comma-free keys can be read back after it |
| `AppConfig.GetAppConfig` | bin/getAppConfig.ts:15-40 | it fails exactly when the missing list is non-empty, with the fixed prefix followed by the joined list; on success every variable is present and non-empty and the record equals the extracted one |
| `AppConfig.ErrorListsMissing` | bin/getAppConfig.ts:32-36 | the message starts with the prefix, and the list read back from it names exactly the missing keys, in declaration order |

## Left out

- Network fetches (`getDataOpenF1` in both lambdas, lib/lambdas/getRacesF1.ts:58-62 and lib/lambdas/getDataOpenF1.ts:18-22) are I/O. The race arrives as a parameter and the feeds as sequences.
- The position lambda's `handler` (lib/lambdas/getDataOpenF1.ts:5-16) only chains fetch, `getTop20` and `mergeDriverData` and logs the result. The two pure steps are modelled.
- The JavaScript Date parser and `toISOString` are engine-defined. A date is its text plus the parsed milliseconds, and wait times are kept as milliseconds rather than ISO text.
- `currentYear` reads the system clock (lib/lambdas/getRacesF1.ts:15), so it is a parameter.
- The DynamoDB, Step Functions and CloudWatch Events SDK calls are foreign calls. They are the abstract map, execution list and boolean, with the service's answer as a parameter. The SDK's rejection of a missing or empty rule name is modelled as a throwing call (`Control.ToggleThrows`). The way Step Functions treats a second start under an existing execution name is not modelled.
- `console.log`/`console.error` output is not modelled. The only exceptions are the handler outcomes (`Races.Outcome`) and the control lambda's missing-parameter warning.
- `Decimal.IntToString` covers whole numbers in plain decimal notation. JavaScript switches to exponent notation at 1e21, which session keys and years never reach.
- Position numbers and driver numbers are integers. Non-numeric or NaN `position` values, which would upset the subtracting comparator, are not modelled.
- `Positions.Merged` groups the nine descriptive driver fields into one `Profile`, present only when a driver matched. This stands for the object spread that adds those fields.
- `Positions.LatestPerPositionKeepsLatest`: the maximal-date statement requires every date to parse. With unparsable dates the kept entry follows NaN comparison rules, and `Positions.InvalidFirstDateKept` covers the main case.
- `Positions.GetTop20KeepsLatest`: it requires every date to parse, for the same reason.
- `Control.ToggleIdempotent`: this is stated for a first call the service accepted. A failed first call leaves the state unchanged, and the repeat may then succeed.
- Infrastructure (lib/stacks/f1Stack.ts, bin/json_f1.ts) has no logic to verify.
- The code has no category/year filter, no batch lookup by year, no conditional write, no workflow definition, no retries, no per-event summary and no reference count, so the model has none either.

## Findings

| source | as written | input that shows it | evidently intended | confidence | as-written member | corrected member |
|---|---|---|---|---|---|---|
| lib/lambdas/getRacesF1.ts:23-38 | the first fetched session is overwritten by a fixed literal (session 10035, Miami 2025), so the feed is never used | a feed whose first session is 9531, with an empty ledger and working services: session 10035 is scheduled and 9531 never is (`Races.AsWrittenIgnoresFeed`) | handle the first fetched session, and report "no race data" for an empty feed | high that the literal is left-over test data; not executed | `Races.HandlerAsWritten` | `Races.HandleFeed` |
