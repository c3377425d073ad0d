/** The once-a-minute tick that `tryInit` arms: for every registered job,
    in order, skip it when its callback or its rule is falsy, otherwise
    parse its rule at the current instant and hand one timer per instant to
    the event loop; then re-arm for the next minute boundary. The clock,
    the calendar components of the current instant and the event loop are
    outside the model: the tick's reading of the clock is a parameter, and
    the timers it adds are its result. */
module CronTick {
  import opened PhpText
  import opened CronParser
  import opened CronJobs

  /** Microseconds in a second: timer delays are kept exact in them. */
  const Micro: int := 1000000

  /** What the tick hands to `Timer::add`: a job's callback after a delay,
      or the tick itself after the re-arm delay, both in microseconds. */
  datatype Timer = RunJob(delay: int, callback: Callback) | Rearm(delay: int)

  /** What stops a tick: the `TypeError` of a callback getter declared to
      return a callable, or the `InvalidArgumentException` of `parse`. */
  datatype Failure = TypeError | InvalidRule(message: string)

  datatype Option<T> = None | Some(value: T)

  /** One job's part of a tick: the timers it adds, or what it throws. */
  datatype Step = Added(timers: seq<Timer>) | Raised(failure: Failure)

  /** A tick so far: the timers added, and what was thrown, if anything. */
  datatype Partial = Partial(timers: seq<Timer>, failure: Option<Failure>)

  /** The tick as the source has it, and as its skip filter intends it. */
  datatype Version = AsWritten | Intended

  // ----------------------------------------------------------- arithmetic

  /** PHP's `t % 60`: the remainder takes the sign of the dividend. */
  function Rem60(t: int): (r: int)
    ensures (t - r) % 60 == 0
    ensures t >= 0 ==> 0 <= r < 60
    ensures t < 0 ==> -60 < r <= 0
  {
    if t >= 0 then t % 60 else -((-t) % 60)
  }

  /** The re-arm delay `60 - now % 60`, in seconds: it lands on a minute
      boundary, and from a non-negative clock on the first boundary after
      `now`. */
  function RearmDelay(now: int): (d: int)
    ensures (now + d) % 60 == 0
    ensures 1 <= d <= 119
    ensures now >= 0 ==> d <= 60 && (now + d) / 60 == now / 60 + 1
  {
    60 - Rem60(now)
  }

  /** Re-arming from an instant on a boundary waits a full minute, so
      re-armed ticks keep to minute boundaries. */
  lemma {:induction false} RearmCadence(t0: int, k: nat)
    requires t0 >= 0 && t0 % 60 == 0
    ensures RearmDelay(t0 + 60 * k) == 60
    ensures t0 + 60 * k + RearmDelay(t0 + 60 * k) == t0 + 60 * (k + 1)
  {
    var q := t0 / 60 + k;
    assert t0 + 60 * k == 60 * q;
    assert Rem60(60 * q) == 0;
  }

  /** `max(0.000001, $t)` for a whole number of seconds `t`, in
      microseconds. */
  function JobDelay(t: int): (d: int)
    ensures d >= 1
    ensures t > 0 ==> d == t * Micro
    ensures t <= 0 ==> d == 1
  {
    if t <= 0 then 1 else t * Micro
  }

  // ------------------------------------------------------------ skipping

  /** PHP truthiness of a string: all but `""` and `"0"`. */
  predicate Truthy(s: string) {
    s != "" && s != "0"
  }

  /** The filter's rule half costs nothing: a falsy rule is never a valid
      one, so it could not have been scheduled anyway. */
  lemma FalsyRuleIsInvalid(s: string)
    requires !Truthy(s)
    ensures !IsValid(s)
  {
    if s == "" {
      assert Trim(s) == "";
      assert SplitWs(Trim(s)) == [""];
    } else {
      assert Trim(s) == s by {
        TrimFixed(s);
      }
      assert SpanNonSpace(s) == 1;
      assert SplitWs(s) == [s];
    }
  }

  /** Whether a job passes the skip filter: a callable callback (callables
      are never falsy) and a truthy rule. */
  predicate Active(job: Job) {
    job.callback.Callable? && Truthy(job.rule)
  }

  /** What the parser needs of a rule that validates. */
  predicate Parsable(job: Job) {
    IsValid(job.rule) ==> FieldsCompilable(job.rule)
  }

  predicate AllParsable(jobs: seq<Job>) {
    forall k :: 0 <= k < |jobs| ==> Parsable(jobs[k])
  }

  // ---------------------------------------------------------------- tick

  /** A parse result whose instants, if any, lie in the minute from
      `now`. */
  predicate InMinute(parsed: Result<seq<int>>, now: int) {
    parsed.Ok? ==> forall t :: t in parsed.value ==> now <= t <= now + 59
  }

  predicate AllInMinute(parsed: seq<Result<seq<int>>>, now: int) {
    forall k :: 0 <= k < |parsed| ==> InMinute(parsed[k], now)
  }

  /** Every job's rule as `parse($rule)` gives it at the tick's instant:
      it fails exactly on an invalid rule, and its instants lie in the
      current minute. */
  function Parses(jobs: seq<Job>, now: int, at: Moment): (r: seq<Result<seq<int>>>)
    requires AllParsable(jobs)
    ensures |r| == |jobs| && AllInMinute(r, now)
    ensures forall k :: 0 <= k < |jobs| ==> (r[k].InvalidArgument? <==> !IsValid(jobs[k].rule))
  {
    seq(|jobs|, k requires 0 <= k < |jobs| => ParseAt(jobs[k].rule, now, at))
  }

  /** One timer per parsed instant `time`, after `$time - $now`. */
  function JobTimers(times: seq<int>, now: int, cb: Callback): (r: seq<Timer>)
    ensures |r| == |times|
    ensures forall i :: 0 <= i < |r| ==> r[i].RunJob? && r[i].callback == cb
  {
    seq(|times|, i requires 0 <= i < |times| => RunJob(JobDelay(times[i] - now), cb))
  }

  /** One pass of the `foreach` body for one job, given what parsing its
      rule gives. As written, the callback getter is declared to return a
      callable, so a null callback throws before the filter sees it; as
      intended, it is skipped. */
  function JobStep(v: Version, job: Job, parsed: Result<seq<int>>, now: int): (r: Step)
  {
    if v == AsWritten && job.GetCallback().RaisesTypeError? then Raised(TypeError)
    else if !Active(job) then Added([])
    else match parsed
      case InvalidArgument(message) => Raised(InvalidRule(message))
      case Ok(times) => Added(JobTimers(times, now, job.callback))
  }

  /** The pass of every job, in order. */
  function Steps(v: Version, jobs: seq<Job>, parsed: seq<Result<seq<int>>>, now: int): seq<Step>
    requires |parsed| == |jobs|
  {
    seq(|jobs|, k requires 0 <= k < |jobs| => JobStep(v, jobs[k], parsed[k], now))
  }

  /** The `foreach`: the first exception ends it, keeping the timers
      already added. */
  function Walk(steps: seq<Step>): (r: Partial)
    decreases |steps|
  {
    if steps == [] then Partial([], None)
    else
      var w := Walk(steps[..|steps| - 1]);
      if w.failure.Some? then w
      else match steps[|steps| - 1]
        case Added(ts) => Partial(w.timers + ts, None)
        case Raised(f) => Partial(w.timers, Some(f))
  }

  /** The whole tick: the walk, then, unless something was thrown, the
      re-arm for the next minute boundary. */
  function Tick(v: Version, jobs: seq<Job>, parsed: seq<Result<seq<int>>>, now: int): (r: Partial)
    requires |parsed| == |jobs|
  {
    var w := Walk(Steps(v, jobs, parsed, now));
    if w.failure.Some? then w else Partial(w.timers + [Rearm(RearmDelay(now) * Micro)], None)
  }

  // --------------------------------------------------------- tick facts

  /** Once something is thrown, later steps add nothing. */
  lemma {:induction false} RaisedStays(steps: seq<Step>, more: seq<Step>)
    requires Walk(steps).failure.Some?
    ensures Walk(steps + more) == Walk(steps)
    decreases |more|
  {
    if more == [] {
      assert steps + more == steps;
    } else {
      var m := |more| - 1;
      RaisedStays(steps, more[..m]);
      assert (steps + more)[..|steps + more| - 1] == steps + more[..m];
    }
  }

  /** One more step of the walk. */
  lemma WalkSnoc(steps: seq<Step>, i: nat)
    requires i < |steps|
    ensures var w := Walk(steps[..i]);
      Walk(steps[..i + 1]) ==
        if w.failure.Some? then w
        else match steps[i]
          case Added(ts) => Partial(w.timers + ts, None)
          case Raised(f) => Partial(w.timers, Some(f))
  {
    assert steps[..i + 1][..i] == steps[..i];
  }

  /** A walk that throws at step `i` throws there for good. */
  lemma WalkStopsAt(steps: seq<Step>, i: nat)
    requires i < |steps| && Walk(steps[..i + 1]).failure.Some?
    ensures Walk(steps) == Walk(steps[..i + 1])
  {
    RaisedStays(steps[..i + 1], steps[i + 1..]);
    assert steps[..i + 1] + steps[i + 1..] == steps;
  }

  /** The walk throws exactly when some step throws, and then it throws
      what the first such step throws. */
  lemma {:induction false} WalkRaisesIffStepRaises(steps: seq<Step>)
    ensures Walk(steps).failure.Some? <==> exists k :: 0 <= k < |steps| && steps[k].Raised?
    ensures Walk(steps).failure.Some? ==>
      exists k :: 0 <= k < |steps| && steps[k].Raised? && Walk(steps).failure.value == steps[k].failure &&
        forall j :: 0 <= j < k ==> steps[j].Added?
    decreases |steps|
  {
    if steps != [] {
      var n := |steps| - 1;
      var init := steps[..n];
      WalkRaisesIffStepRaises(init);
      if exists k :: 0 <= k < n && init[k].Raised? {
        var k :| 0 <= k < n && init[k].Raised?;
        assert steps[k] == init[k];
        var f :| 0 <= f < n && init[f].Raised? && Walk(init).failure.value == init[f].failure &&
          forall j :: 0 <= j < f ==> init[j].Added?;
        assert steps[f] == init[f];
        assert forall j :: 0 <= j < f ==> steps[j] == init[j];
      } else {
        assert forall k :: 0 <= k < n ==> steps[k] == init[k];
      }
    }
  }

  /** Every timer of a walk comes from the step of one job. */
  lemma {:induction false} WalkTimersFromSteps(steps: seq<Step>)
    ensures forall t :: t in Walk(steps).timers ==>
      exists k :: 0 <= k < |steps| && steps[k].Added? && t in steps[k].timers
    decreases |steps|
  {
    if steps != [] {
      var n := |steps| - 1;
      var init := steps[..n];
      WalkTimersFromSteps(init);
      forall t | t in Walk(steps).timers
        ensures exists k :: 0 <= k < |steps| && steps[k].Added? && t in steps[k].timers
      {
        if t in Walk(init).timers {
          var k :| 0 <= k < n && init[k].Added? && t in init[k].timers;
          assert steps[k] == init[k];
        } else {
          assert steps[n].Added? && t in steps[n].timers;
        }
      }
    }
  }

  /** The timers of the steps that add some, in order. */
  function AddedTimers(steps: seq<Step>): seq<Timer>
    decreases |steps|
  {
    if steps == [] then []
    else
      var last := steps[|steps| - 1];
      AddedTimers(steps[..|steps| - 1]) + (if last.Added? then last.timers else [])
  }

  /** A walk in which no step throws adds every step's timers, in order. */
  lemma {:induction false} WalkAllAdded(steps: seq<Step>)
    requires forall k :: 0 <= k < |steps| ==> steps[k].Added?
    ensures Walk(steps) == Partial(AddedTimers(steps), None)
    decreases |steps|
  {
    if steps != [] {
      var n := |steps| - 1;
      assert forall k :: 0 <= k < n ==> steps[..n][k].Added? by {
        forall k | 0 <= k < n ensures steps[..n][k] == steps[k] {
        }
      }
      WalkAllAdded(steps[..n]);
    }
  }

  /** What the active jobs whose rules parsed schedule, job after job in
      the registry's order and, within a job, instant after instant: a
      timer for its callback after the distance from `now` to the
      instant. */
  function Scheduled(jobs: seq<Job>, parsed: seq<Result<seq<int>>>, now: int): (r: seq<Timer>)
    requires |parsed| == |jobs|
    decreases |jobs|
  {
    if jobs == [] then []
    else
      var n := |jobs| - 1;
      Scheduled(jobs[..n], parsed[..n], now) +
        (if Active(jobs[n]) && parsed[n].Ok? then JobTimers(parsed[n].value, now, jobs[n].callback) else [])
  }

  /** The steps of the first jobs are the first steps. */
  lemma StepsPrefix(v: Version, jobs: seq<Job>, parsed: seq<Result<seq<int>>>, now: int, n: nat)
    requires |parsed| == |jobs| && n <= |jobs|
    ensures Steps(v, jobs, parsed, now)[..n] == Steps(v, jobs[..n], parsed[..n], now)
  {
  }

  /** No active job of the first ones has a rule that fails. */
  lemma NoFailurePrefix(jobs: seq<Job>, parsed: seq<Result<seq<int>>>, n: nat)
    requires |parsed| == |jobs| && n <= |jobs|
    requires forall k :: 0 <= k < |jobs| ==> !(Active(jobs[k]) && parsed[k].InvalidArgument?)
    ensures forall k :: 0 <= k < n ==> !(Active(jobs[..n][k]) && parsed[..n][k].InvalidArgument?)
  {
    forall k | 0 <= k < n ensures jobs[..n][k] == jobs[k] && parsed[..n][k] == parsed[k] {
    }
  }

  /** Where no active job's rule fails, the intended steps add exactly what
      the jobs schedule. */
  lemma {:induction false} StepsScheduled(jobs: seq<Job>, parsed: seq<Result<seq<int>>>, now: int)
    requires |parsed| == |jobs|
    requires forall k :: 0 <= k < |jobs| ==> !(Active(jobs[k]) && parsed[k].InvalidArgument?)
    ensures AddedTimers(Steps(Intended, jobs, parsed, now)) == Scheduled(jobs, parsed, now)
    decreases |jobs|
  {
    if jobs != [] {
      var n := |jobs| - 1;
      StepsPrefix(Intended, jobs, parsed, now, n);
      NoFailurePrefix(jobs, parsed, n);
      StepsScheduled(jobs[..n], parsed[..n], now);
      ScheduledSnoc(jobs, parsed, now);
    }
  }

  /** One more job adds to both sides alike. */
  lemma ScheduledSnoc(jobs: seq<Job>, parsed: seq<Result<seq<int>>>, now: int)
    requires jobs != [] && |parsed| == |jobs|
    requires var n := |jobs| - 1;
      AddedTimers(Steps(Intended, jobs, parsed, now)[..n]) == Scheduled(jobs[..n], parsed[..n], now)
    requires !(Active(jobs[|jobs| - 1]) && parsed[|jobs| - 1].InvalidArgument?)
    ensures AddedTimers(Steps(Intended, jobs, parsed, now)) == Scheduled(jobs, parsed, now)
  {
  }

  /** As intended, a job throws exactly when it is active and its rule
      fails to parse, and its timers run its callback between a
      microsecond and 59 seconds ahead. */
  lemma IntendedStep(job: Job, parsed: Result<seq<int>>, now: int)
    requires InMinute(parsed, now)
    ensures JobStep(Intended, job, parsed, now).Raised? <==> Active(job) && parsed.InvalidArgument?
    ensures var r := JobStep(Intended, job, parsed, now);
      r.Added? ==> forall t :: t in r.timers ==>
        Active(job) && parsed.Ok? && t.RunJob? && t.callback == job.callback && 1 <= t.delay <= 59 * Micro
    ensures !Active(job) ==> JobStep(Intended, job, parsed, now) == Added([])
    ensures var r := JobStep(Intended, job, parsed, now);
      Active(job) && parsed.Ok? ==>
        r.Added? && |r.timers| == |parsed.value| &&
        forall i :: 0 <= i < |r.timers| ==> r.timers[i] == RunJob(JobDelay(parsed.value[i] - now), job.callback)
  {
    if Active(job) && parsed.Ok? {
      var ts := JobTimers(parsed.value, now, job.callback);
      forall t | t in ts
        ensures t.delay <= 59 * Micro
      {
        var i :| 0 <= i < |ts| && t == ts[i];
        assert parsed.value[i] in parsed.value;
      }
    }
  }

  /** The intended tick throws exactly when an active job's rule fails to
      parse, and otherwise ends with the re-arm for the next minute
      boundary; every other timer runs the callback of an active job whose
      rule parsed, between a microsecond and 59 seconds ahead. */
  lemma IntendedTick(jobs: seq<Job>, parsed: seq<Result<seq<int>>>, now: int)
    requires |parsed| == |jobs| && AllInMinute(parsed, now)
    ensures var r := Tick(Intended, jobs, parsed, now);
      r.failure.Some? <==> exists k :: 0 <= k < |jobs| && Active(jobs[k]) && parsed[k].InvalidArgument?
    ensures var r := Tick(Intended, jobs, parsed, now);
      r.failure.None? ==> r.timers != [] && r.timers[|r.timers| - 1] == Rearm(RearmDelay(now) * Micro)
    ensures var r := Tick(Intended, jobs, parsed, now);
      r.failure.None? ==> r.timers == Scheduled(jobs, parsed, now) + [Rearm(RearmDelay(now) * Micro)]
    ensures forall t :: t in Walk(Steps(Intended, jobs, parsed, now)).timers ==>
      t.RunJob? && 1 <= t.delay <= 59 * Micro &&
      exists k :: 0 <= k < |jobs| && Active(jobs[k]) && parsed[k].Ok? && jobs[k].callback == t.callback
  {
    var steps := Steps(Intended, jobs, parsed, now);
    WalkRaisesIffStepRaises(steps);
    WalkTimersFromSteps(steps);
    forall k | 0 <= k < |jobs|
      ensures steps[k].Raised? <==> Active(jobs[k]) && parsed[k].InvalidArgument?
      ensures steps[k].Added? ==> forall t :: t in steps[k].timers ==>
        Active(jobs[k]) && parsed[k].Ok? && t.RunJob? && t.callback == jobs[k].callback && 1 <= t.delay <= 59 * Micro
    {
      IntendedStep(jobs[k], parsed[k], now);
    }
    if Walk(steps).failure.None? {
      assert forall k :: 0 <= k < |steps| ==> steps[k].Added?;
      WalkAllAdded(steps);
      StepsScheduled(jobs, parsed, now);
    }
  }

  /** At the tick's instant, the intended tick throws exactly when an
      active job has an invalid rule. */
  lemma IntendedTickRaisesIffInvalid(jobs: seq<Job>, now: int, at: Moment)
    requires AllParsable(jobs)
    ensures Tick(Intended, jobs, Parses(jobs, now, at), now).failure.Some? <==>
      exists k :: 0 <= k < |jobs| && Active(jobs[k]) && !IsValid(jobs[k].rule)
  {
    IntendedTick(jobs, Parses(jobs, now, at), now);
  }

  /** Where every callback is callable the source behaves as intended. */
  lemma AsWrittenAgreesOnCallables(jobs: seq<Job>, parsed: seq<Result<seq<int>>>, now: int)
    requires |parsed| == |jobs|
    requires forall k :: 0 <= k < |jobs| ==> jobs[k].callback.Callable?
    ensures Tick(AsWritten, jobs, parsed, now) == Tick(Intended, jobs, parsed, now)
  {
    assert Steps(AsWritten, jobs, parsed, now) == Steps(Intended, jobs, parsed, now);
  }

  /** As written, a job with a null callback stops the tick before it
      reaches the later jobs and before it re-arms, so no later minute is
      served; as intended, the job is skipped and the tick re-arms. */
  lemma NullCallbackStopsTick(job: Job, rest: seq<Job>, parsed: seq<Result<seq<int>>>, now: int)
    requires job.callback.Null? && |parsed| == 1 + |rest|
    ensures Tick(AsWritten, [job] + rest, parsed, now) == Partial([], Some(TypeError))
    ensures Tick(Intended, [job], parsed[..1], now) == Partial([Rearm(RearmDelay(now) * Micro)], None)
  {
    var steps := Steps(AsWritten, [job] + rest, parsed, now);
    assert ([job] + rest)[0] == job;
    assert steps == [Raised(TypeError)] + steps[1..];
    assert Walk([Raised(TypeError)]) == Partial([], Some(TypeError)) by {
      assert [Raised(TypeError)][..0] == [];
    }
    RaisedStays([Raised(TypeError)], steps[1..]);
    assert Steps(Intended, [job], parsed[..1], now) == [Added([])];
    assert Walk([Added([])]) == Partial([], None) by {
      assert [Added([])][..0] == [];
    }
  }

  // --------------------------------------------------------- the tick loop

  /** The body of the tick closure's `foreach` for one job, with the skip
      filter as intended: a skipped job adds nothing; otherwise its rule is
      parsed at the tick's instant and one timer is added per instant. */
  method JobPass(job: Job, now: int, at: Moment) returns (step: Step)
    requires Parsable(job)
    ensures step == JobStep(Intended, job, ParseAt(job.rule, now, at), now)
  {
    if job.callback.Null? || !Truthy(job.rule) {
      return Added([]);
    }
    var times := Parse(job.rule, now, at);
    if times.InvalidArgument? {
      return Raised(InvalidRule(times.message));
    }
    var timers := AddTimers(times.value, now, job.callback);
    return Added(timers);
  }

  /** The inner `foreach`: one timer per parsed instant, after
      `$time - $now`, in order. */
  method AddTimers(instants: seq<int>, now: int, cb: Callback) returns (timers: seq<Timer>)
    ensures timers == JobTimers(instants, now, cb)
  {
    timers := [];
    for j := 0 to |instants|
      invariant |timers| == j
      invariant forall k :: 0 <= k < j ==> timers[k] == RunJob(JobDelay(instants[k] - now), cb)
    {
      var t := instants[j] - now;
      timers := timers + [RunJob(JobDelay(t), cb)];
    }
  }

  /** The tick closure: the `foreach` over the jobs in the registry's
      order, then the re-arm. It adds the timers the intended tick
      describes, or stops at the first invalid rule. */
  method RunTick(registry: Registry, now: int, at: Moment) returns (r: Partial)
    requires registry.Valid()
    requires AllParsable(registry.InOrder(registry.lastId))
    ensures var jobs := registry.InOrder(registry.lastId); r == Tick(Intended, jobs, Parses(jobs, now, at), now)
  {
    var jobs := registry.Listing();
    ghost var steps := Steps(Intended, jobs, Parses(jobs, now, at), now);
    var timers: seq<Timer> := [];
    for i := 0 to |jobs|
      invariant Walk(steps[..i]) == Partial(timers, None)
    {
      var step := JobPass(jobs[i], now, at);
      assert step == steps[i];
      WalkSnoc(steps, i);
      match step
      case Raised(f) =>
        WalkStopsAt(steps, i);
        return Partial(timers, Some(f));
      case Added(ts) =>
        timers := timers + ts;
    }
    assert steps[..|jobs|] == steps;
    timers := timers + [Rearm(RearmDelay(now) * Micro)];
    return Partial(timers, None);
  }
}
