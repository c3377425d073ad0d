# localzet/Cron in Dafny

A model of the two classes of the PHP library localzet/Cron, with proofs about them:

- `CronParser` validates a crontab rule of 5 or 6 whitespace-separated fields (an optional seconds field first). It compiles each field into the list of integers the field selects inside its domain (`parseSegment`, `parseDate`). It answers whether an instant's minute, hour, day of month, weekday and month all match, giving one instant per selected second when they do (`parse`).
- `Cron` is a job: a rule, a callback and a name. Every job takes the next id from a process-wide counter and is stored under it in a process-wide registry until `remove` or `destroy` drops it. The first job arms a once-a-minute tick, behind a latch. On each tick, every job whose callback and rule are non-empty gets one timer per selected second of the current minute; then the tick re-arms for the next minute boundary.

Files (one module each):

- `php_text.dfy` (`PhpText`): the PHP string builtins the parser uses.
  - `trim`, specified as the infix left between its stripped ends.
  - `explode` and `preg_split('/\s+/')`, with their round trips.
  - The `(int)` cast, and decimal rendering.
- `cron_parser.dfy` (`CronParser`): the rule compiler.
  - The accepted rule language.
  - `parseSegment` as a specification function (`Segment`) and as methods with the source's loops (`ParseSegment`, `ParseList`, `ParseSingle`, `ParseStep`, `Count`).
  - `parseDate` (`Compile`, `ParseDate`) and `parse` (`ParseAt`, `Parse`).
- `cron_parser_facts.dfy` (`CronParserFacts`): what the compiler promises.
  - Validation accepts exactly 5 or 6 fields.
  - The meaning of each segment form.
  - The five-field shift.
  - The rule-format examples, stated over digit strings such as any text reading 15.
- `cron_jobs.dfy` (`CronJobs`): the registry as a class `Registry`, holding the counter, the map and the latch. Jobs are a class `Job` with immutable fields.
- `cron_tick.dfy` (`CronTick`): the tick closure.
  - The skip filter and the per-job timers.
  - The re-arm delay arithmetic.
  - The imperative tick (`RunTick`) proved against its specification `Tick`.

Behaviour worth knowing, all following the code:

- **The skip filter is PHP truthiness.** Besides the empty rule it also skips the rule `"0"`; both are invalid rules anyway (`FalsyRuleIsInvalid`).
- **A rule is not validated when a job is created.** A non-empty invalid rule makes `parse` throw inside the tick. That ends the tick: later jobs are not scheduled and the tick does not re-arm (`IntendedTickRaisesIffInvalid`).
- **Timer delays are whole seconds.** The tick's parse result is `now + s` for each selected second `s`, so each job timer's delay is `s`: `max(0.000001, s)` seconds, kept exact as microseconds.
- **Day of month and weekday are combined with AND, not cron's usual OR.**
- **Lists.** A comma list that holds a `-` anywhere compiles each token as a segment of its own, an empty token included. An empty token casts to 0, so `1-2,` gives 1, 2, 0.

## Model

| member | source | states |
|---|---|---|
| PhpText.Trim | src/CronParser.php:56 | `trim` leaves no trimmable character at either end and never lengthens the text |
| PhpText.TrimSpec | src/CronParser.php:89 | `trim` gives the infix of the text that starts after its leading trimmable characters; everything before and after that infix is trimmable, so only the ends are stripped |
| PhpText.Split | src/CronParser.php:83 | `explode` gives at least one piece, exactly one iff the separator is absent; no piece holds it and the pieces glue back to the text |
| PhpText.SplitJoin | src/CronParser.php:83 | exploding pieces that were imploded gives the pieces back |
| PhpText.SplitWs | src/CronParser.php:134 | `preg_split('/\s+/')` gives at least one piece and no piece holds whitespace |
| PhpText.GapsWs | src/CronParser.php:134 | the runs it cuts at are one fewer than the pieces, non-empty and all whitespace |
| PhpText.JoinSplitWs | src/CronParser.php:134 | every text is its pieces glued back with its whitespace runs |
| PhpText.SplitJoinWs | src/CronParser.php:134 | splitting non-empty words glued with non-empty runs gives back the words and the runs |
| PhpText.IntCast | src/CronParser.php:89 | `(int)` of an all-digit text is its decimal value; of a text not starting with a digit (the empty one included) it is 0; a field's alphabet has no sign or space, so PHP's leading-sign and leading-space rules never apply |
| PhpText.CastToDigits | src/CronParser.php:92 | casting a number's decimal rendering gives the number back |
| CronParser.IsField | src/CronParser.php:56-57 | a field is non-empty, has no whitespace or trimmable end, and a `*` in it only opens `*` or `*/N`, never beside `,` or `-` |
| CronParserFacts.ValidIffFiveOrSixFields | src/CronParser.php:54-61 | a rule whose trim is fields glued by whitespace runs is valid iff there are 5 or 6 fields; any other count is rejected |
| CronParserFacts.ValidRuleIsFields | src/CronParser.php:54-61 | every valid rule trims to 5 or 6 fields glued by non-empty whitespace runs |
| CronParserFacts.StarInListRejected | src/CronParser.php:56-57 | a rule with a `*` inside a list or a range is invalid |
| CronParser.Ascending | src/CronParser.php:102-105 | the counting loop's values: empty iff start passes stop, first is start, consecutive values differ by the step, all within [start, stop] |
| CronParser.AscendingLast | src/CronParser.php:102-105 | the last value does not pass stop and one more step would |
| CronParser.AscendingByOne | src/CronParser.php:79-81 | with step 1 the values are exactly start, start+1, ..., stop |
| CronParser.Count | src/CronParser.php:102-105 | the `for` loop appends exactly the `Ascending` values |
| CronParser.StepSegment | src/CronParser.php:94-105 | a step segment's values lie in [max(min, start), max] |
| CronParser.RangeAsStep | src/CronParser.php:106-107 | `A-B` with `/1` appended is a well-formed step whose pieces are `A-B` and `1` |
| CronParser.Segment | src/CronParser.php:72-112 | every compiled value lies in [max(min, start), max], so with the default start it is inside the field's domain |
| CronParser.ListSegment | src/CronParser.php:82-93 | every value of a comma list lies in [max(min, start), max] |
| CronParser.ListItem | src/CronParser.php:85-92 | every value one list token contributes lies in [max(min, start), max] |
| CronParser.ParseSegment | src/CronParser.php:72-112 | the method computes exactly `Segment` |
| CronParser.ParseList | src/CronParser.php:82-93 | the `foreach` over the tokens computes exactly `ListSegment` of the exploded list |
| CronParser.ParseItem | src/CronParser.php:85-92 | one pass of the list `foreach` computes exactly what `ListItem` says the token contributes |
| CronParser.ParseRange | src/CronParser.php:106-107 | recompiling a bare range with `/1` appended gives exactly the range's own `Segment` |
| CronParser.ParseSingle | src/CronParser.php:94-111 | the step, range and single-number branches compute exactly `Segment` of a text that is neither `*` nor a list |
| CronParser.ParseStep | src/CronParser.php:94-105 | the step branch computes exactly `StepSegment` |
| CronParserFacts.Star | src/CronParser.php:78-81 | `*` gives every integer from max(min, start) to max, in order |
| CronParserFacts.BareInteger | src/CronParser.php:108-110 | a number gives itself if within [max(min, start), max] and nothing otherwise |
| CronParserFacts.StepOverRange | src/CronParser.php:94-105 | `A-B/N` counts by N from max(min, start, A) to min(max, B): a range narrows a bound only where it is tighter |
| CronParserFacts.StepLeftIgnored | src/CronParser.php:94-105 | a left side without `-` does not narrow: `X/N` counts by N over the whole domain, exactly like `*/N` |
| CronParserFacts.BareRange | src/CronParser.php:106-107 | a bare range `A-B` compiles exactly as `A-B/1`: every integer from max(min, start, A) to min(max, B) |
| CronParserFacts.PlainItem | src/CronParser.php:89-92 | in a list without `-`, a token of digits (possibly empty) gives its cast value when non-empty and in [max(min, start), max], and nothing otherwise |
| CronParserFacts.PlainTokens | src/CronParser.php:84-93 | over tokens that are runs of digits (empty ones and leading zeros allowed) in a list without `-`, the list branch gives exactly `KeptTokens`: the decimal value of every non-empty token within [max(min, start), max], in order, repeats kept; empty tokens give nothing |
| CronParserFacts.PlainList | src/CronParser.php:82-93 | any comma list of two or more runs of digits (empty ones allowed, as in `1,,5` or `5,`) is compilable, explodes back into its tokens and compiles to `KeptTokens`: the values in [max(min, start), max], in order, with repeats (`05` is 5); empty tokens and values out of range are dropped without error |
| CronParserFacts.QuarterHours | src/CronParser.php:94-105 | `*/15` on minutes gives 0, 15, 30, 45 |
| CronParserFacts.StepInsideRange | src/CronParser.php:94-105 | `10-20/5` on minutes gives 10, 15, 20 |
| CronParserFacts.ListExample | src/CronParser.php:82-93 | `1,5,10` on minutes gives 1, 5, 10 |
| CronParserFacts.ListDropsOutOfRange | src/CronParser.php:89-91 | `1,70` on minutes gives 1 alone |
| CronParserFacts.ListLeadingZeroAndEmpty | src/CronParser.php:89-92 | `05,,10` on minutes gives 5 and 10: the empty token is dropped and `05` casts to 5 |
| CronParserFacts.TwoTokens | src/CronParser.php:84-93 | a two-token list compiles to its tokens' contributions in order |
| CronParserFacts.EmptyTokenBesideRange | src/CronParser.php:85-86 | in a list holding `-` an empty token is compiled too and casts to 0: `1-2,` gives 1, 2, 0 |
| CronParser.CompileFields | src/CronParser.php:134-153 | every compiled set lies in its domain: seconds and minutes [0,59], hours [0,23], days [1,31], months [1,12], weekdays [0,6] |
| CronParser.WithSeconds | src/CronParser.php:136-152 | a second set within [0,59] and five fields give a schedule keeping that second set, every set inside its domain |
| CronParser.Compile | src/CronParser.php:132-155 | `parseDate` of a valid rule gives sets inside their domains |
| CronParser.ParseDate | src/CronParser.php:132-155 | the method computes exactly `Compile`, field by field |
| CronParserFacts.FiveFieldShift | src/CronParser.php:144-153 | with five fields every field moves one place left and the second set is what a leading `0` field gives |
| CronParserFacts.PrependSecondField | src/CronParser.php:134-153 | a five-field rule with a seconds field of value 0 put in front is a valid six-field rule that compiles the same |
| CronParserFacts.FiveFieldRule | src/CronParser.php:134-153 | a valid five-field rule means exactly the six-field rule `0 <rule>` |
| CronParser.Shift | src/CronParser.php:42-44 | one instant `start_time + s` per second, in order; seconds within a minute give instants within [start_time, start_time+59] |
| CronParser.Offsets | src/CronParser.php:41-44 | the `foreach` computes exactly `Shift` |
| CronParser.ParseAt | src/CronParser.php:28-47 | `parse` fails exactly on an invalid rule, and its instants lie within the minute from `start_time` |
| CronParser.Parse | src/CronParser.php:28-47 | fails with "Invalid cron string: " + rule iff the rule is invalid; otherwise, when minute, hour, day, weekday and month all match, one instant `start_time + s` per second in the second set's order, and nothing at other minutes |
| CronJobs.Registry.constructor | src/Cron.php:15 | the registry starts empty, the counter at 0 and the latch unset |
| CronJobs.Registry.CreateId | src/Cron.php:112-116 | the id is the previous counter plus one, above every stored id; nothing else changes |
| CronJobs.Registry.Remove | src/Cron.php:97-105 | true iff the id (or the job's id) was stored; exactly that entry is removed, others unchanged; a second removal returns false |
| CronJobs.Registry.TryInit | src/Cron.php:121-127 | arms the tick iff the latch was unset; afterwards the latch is set and the tick has been armed exactly once |
| CronJobs.Registry.InOrder | src/Cron.php:132 | the registry's jobs by strictly ascending id, each stored under its id, none missing |
| CronJobs.Registry.Listing | src/Cron.php:132 | the loop lists exactly `InOrder`: insertion order is ascending id order because every job is inserted under a fresh, larger id |
| CronJobs.Job.constructor | src/Cron.php:24-29 | the job takes the next id, is stored under it with every earlier entry kept, the tick is armed; `getRule`, `getName`, `getId` give back the arguments and the id; `getCallback` gives back a callable callback and throws `TypeError` for a null one |
| CronJobs.Job.GetCallback | src/Cron.php:46-49 | the getter declared `callable` throws `TypeError` exactly when the stored callback is null, and otherwise returns it |
| CronJobs.Job.Destroy | src/Cron.php:76-79 | exactly `remove` of the job's own id |
| CronJobs.CreateDestroyCreate | src/Cron.php:114-115 | ids are never reused: a job created after another is destroyed gets the next id, and the destroyed one stays gone |
| CronTick.Rem60 | src/Cron.php:144 | PHP's `% 60`: the remainder has the dividend's sign, magnitude below 60, and the dividend minus it is a multiple of 60 |
| CronTick.RearmDelay | src/Cron.php:144 | the re-arm delay `60 - time() % 60`, with the clock reading taken as `now`, lands on a minute boundary; for a non-negative clock it is in [1,60] and reaches the first boundary after `now` |
| CronTick.RearmCadence | src/Cron.php:144 | from a boundary the re-arm waits exactly 60 seconds, so re-armed ticks stay on boundaries |
| CronTick.JobDelay | src/Cron.php:141 | `max(0.000001, t)` in microseconds: at least 1; `t` seconds when t is positive and exactly one microsecond otherwise |
| CronTick.FalsyRuleIsInvalid | src/Cron.php:135-137 | a rule the filter skips as falsy (`""` or `"0"`) is never valid |
| CronTick.Parses | src/Cron.php:138 | each job's parse result fails exactly on an invalid rule and its instants lie in the current minute |
| CronTick.JobTimers | src/Cron.php:139-142 | one timer per parsed instant, each running the job's callback |
| CronTick.RaisedStays | src/Cron.php:132-143 | once a job throws, later jobs add nothing |
| CronTick.WalkRaisesIffStepRaises | src/Cron.php:132-143 | the `foreach` throws iff some job throws, and then with the first such job's failure |
| CronTick.WalkTimersFromSteps | src/Cron.php:132-143 | every timer added comes from one job's pass |
| CronTick.IntendedStep | src/Cron.php:133-142 | a job throws iff it passes the filter and its rule fails to parse; a skipped job adds nothing; an active job whose rule parsed adds exactly one timer per instant, in order, running its callback after `max(0.000001, time - now)`; every timer runs 1 microsecond to 59 seconds ahead |
| CronTick.WalkAllAdded | src/Cron.php:132-143 | a `foreach` in which no job throws adds every job's timers, in order |
| CronTick.StepsScheduled | src/Cron.php:132-143 | where no active job's rule fails, the passes add exactly `Scheduled`: each active job's timers, job after job in the registry's order |
| CronTick.IntendedTick | src/Cron.php:128-145 | the tick throws iff an active job's rule fails to parse; otherwise its timers are exactly `Scheduled` (one timer per selected instant of every active job, jobs in order) followed by the re-arm for the next boundary; every job timer runs an active job's callback 1 microsecond to 59 seconds ahead |
| CronTick.IntendedTickRaisesIffInvalid | src/Cron.php:132-138 | at the tick's instant, the tick throws iff some job with a callable callback and a truthy rule has an invalid rule |
| CronTick.AsWrittenAgreesOnCallables | src/Cron.php:134-135 | when every callback is callable, the tick as written equals the intended one |
| CronTick.NullCallbackStopsTick | src/Cron.php:132-144 | as written, a job with a null callback throws `TypeError` before the filter: no timers, no later jobs, no re-arm; as intended it is skipped and the tick re-arms |
| CronTick.AddTimers | src/Cron.php:139-142 | the inner `foreach` adds exactly `JobTimers`, in order |
| CronTick.JobPass | src/Cron.php:133-142 | one pass of the loop body is exactly the intended job step on `parse`'s result |
| CronTick.RunTick | src/Cron.php:128-145 | the tick over the registry's jobs in order is exactly the intended `Tick` |

## Left out

- `Timer::add` and the event loop are outside the model. The tick's result is the list of timers it adds. Fractional delays are exact integer microseconds.
- `time()` and `date()`: the clock reading `now` and the calendar components of the instant are parameters.
- `parse` reads the clock a second time (src/Cron.php:138), and the re-arm reads it a third time (src/Cron.php:144). The model uses the tick's own `now` for both, so a timer's delay is exactly the selected second and the re-arm delay is computed from `now`.
- The tick re-arming itself: the model states the re-arm timer and its delay, not an infinite run.
- PCRE is not modelled. The language of src/CronParser.php:56-57 is stated directly. The case-insensitive flag changes nothing for this alphabet.
- Loose-typing corners of `parseSegment` are excluded by the `Compilable` precondition:
  - a step text that is not a positive run of digits: `/` alone, `*/0` and `1/x` throw or never terminate, and a leading-numeric one such as the `2-3` of `1/2-3` (which passes validation) is stepped by its leading number with a warning in PHP 8;
  - a range side that is not a number;
  - for other texts, PHP's string-to-int comparisons at src/CronParser.php:98-99 agree with the integer comparisons the model makes.
- `ParseAt`, `Parse`, `Tick`, `RunTick`: the rule of a job must meet that precondition whenever it is valid.
- Integers are unbounded. PHP's 64-bit overflow is not modelled.
- `start = null` in `parseSegment` is modelled by passing `min`, which the source substitutes at once.
- Callbacks are either `null` or callable. Other non-callable values (a misspelt function name, a number) would also throw `TypeError` from `getCallback`.
- `remove` with a non-integer key (PHP's string-to-int key coercion) is not modelled. Ids are integers.
- The class's static state is one `Registry` object that jobs refer to. Nothing models a second registry being created.
- The getters `GetRule`, `GetName`, `GetId` and `GetAll` carry no contract of their own. What they return is stated by the constructor's contract.
- The worked examples are stated over digit strings with the given values (for example any `n` with `(int)n == 15` in `*/n`), not over literal rules.

## Findings

| source | as written | input that shows it | evidently intended | confidence | as-written member | corrected member |
|---|---|---|---|---|---|---|
| src/Cron.php:134 | `getCallback()` is declared to return `callable`, so a job whose callback is `null` makes it throw `TypeError` before the `!$cb` filter on the next line can skip it. The tick stops there: later jobs get no timers and the tick never re-arms. | `new Cron('* * * * *', null)` before any other job | the filter skips the job and the tick goes on and re-arms | medium, not executed | CronTick.NullCallbackStopsTick | CronTick.IntendedTick |
