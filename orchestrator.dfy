/**
 * The phase orchestrator `SequentialMetaCurriculum`
 * (syllabus/curricula/sequential.py:59-201): a list of curricula played one
 * after the other, each phase ending when its stopping condition, checked
 * after every episode, becomes true.
 *
 * The objects the orchestrator talks to are supplied by the caller: task
 * spaces are records of functions, user-written stopping conditions are
 * predicates over the metrics ledger, and what the active phase's own
 * `sample(k)` hands out is a function argument of `Sample`.
 */
module PhaseOrchestrator {
  import opened Results
  import opened Metrics
  import opened Conditions

  /** A task space: membership, and the encoding between tasks and their encoded form. */
  datatype TaskSpace<!D, !E> = TaskSpace(contains: D -> bool, encode: D -> E, decode: E -> D)

  /** A curriculum object given by the caller: its identity and its task space. */
  datatype Curriculum<!D, !E> = Curriculum(id: nat, space: TaskSpace<D, E>)

  /** An element of `curriculum_list` as passed to the constructor. */
  datatype PhaseItem<!D, !E> =
    | CurriculumItem(curriculum: Curriculum<D, E>)
    | TaskSpaceItem(space: TaskSpace<D, E>)
    | TaskItem(task: D)  // anything else, accepted only as a task of the orchestrator's space

  /** A phase after normalisation (lines 88-95). */
  datatype Phase<!D, !E> =
    | Given(curriculum: Curriculum<D, E>)
    | DomainRandomization(space: TaskSpace<D, E>)
    | Noop(task: D, space: TaskSpace<D, E>)

  /** The task space a phase samples in: `curriculum.task_space`. */
  function PhaseSpace<D, E>(p: Phase<D, E>): TaskSpace<D, E>
  {
    match p
    case Given(c) => c.space
    case DomainRandomization(space) => space
    case Noop(_, space) => space
  }

  /** An element of `stopping_conditions` as passed to the constructor. */
  datatype ConditionItem =
    | CallableItem(callable: Ledger -> bool)
    | StringItem(text: string)
    | OtherItem

  /** A stopping condition after normalisation (lines 100-111). */
  datatype Stop = UserCondition(callable: Ledger -> bool) | Parsed(condition: Condition)

  /** Why the constructor raises. */
  datatype ConfigError =
    | NoPhases                                   // the first assertion, line 67
    | WrongConditionCount                        // the second assertion, line 68
    | InvalidCurriculumItem(index: nat)          // line 96, naming the offending item by position
    | InvalidStoppingCondition(index: nat)       // line 109, likewise
    | InvalidConditionString(error: ConditionError)  // line 151, raised while parsing a string condition

  // ---------------------------------------------------------------------
  // _parse_curriculum_list

  /** Which items `_parse_curriculum_list` accepts. */
  predicate Admissible<D, E>(env: TaskSpace<D, E>, item: PhaseItem<D, E>)
  {
    !item.TaskItem? || env.contains(item.task)
  }

  /** The phase an accepted item becomes. */
  function PhaseFor<D, E>(env: TaskSpace<D, E>, item: PhaseItem<D, E>): Phase<D, E>
  {
    match item
    case CurriculumItem(c) => Given(c)
    case TaskSpaceItem(space) => DomainRandomization(space)
    case TaskItem(t) => Noop(t, env)
  }

  /**
   * The first `n` items normalised: every one accepted and turned into its
   * phase, or the error of the first item refused.
   */
  function PhasesUpTo<D, E>(env: TaskSpace<D, E>, items: seq<PhaseItem<D, E>>, n: nat): (r: Result<seq<Phase<D, E>>, ConfigError>)
    requires n <= |items|
    ensures r.Ok? <==> forall i :: 0 <= i < n ==> Admissible(env, items[i])
    ensures r.Ok? ==> |r.value| == n && forall i :: 0 <= i < n ==> r.value[i] == PhaseFor(env, items[i])
    ensures r.Err? ==> (&& r.error.InvalidCurriculumItem? && r.error.index < n
                        && !Admissible(env, items[r.error.index])
                        && forall i :: 0 <= i < r.error.index ==> Admissible(env, items[i]))
  {
    if n == 0 then Ok([])
    else
      match PhasesUpTo(env, items, n - 1)
      case Err(e) => Err(e)
      case Ok(ps) =>
        if Admissible(env, items[n - 1]) then Ok(ps + [PhaseFor(env, items[n - 1])])
        else Err(InvalidCurriculumItem(n - 1))
  }

  /** `_parse_curriculum_list` (lines 83-98). */
  method ParseCurriculumList<D, E>(env: TaskSpace<D, E>, items: seq<PhaseItem<D, E>>) returns (r: Result<seq<Phase<D, E>>, ConfigError>)
    ensures r == PhasesUpTo(env, items, |items|)
  {
    var parsed: seq<Phase<D, E>> := [];
    for i := 0 to |items|
      invariant PhasesUpTo(env, items, i) == Ok(parsed)
    {
      match items[i]
      case CurriculumItem(c) =>
        parsed := parsed + [Given(c)];
      case TaskSpaceItem(space) =>
        parsed := parsed + [DomainRandomization(space)];
      case TaskItem(t) =>
        if env.contains(t) {
          parsed := parsed + [Noop(t, env)];
        } else {
          return Err(InvalidCurriculumItem(i));
        }
    }
    return Ok(parsed);
  }

  // ---------------------------------------------------------------------
  // _parse_stopping_conditions

  /** Which items `_parse_stopping_conditions` accepts: callables, and strings that parse. */
  predicate StopOk(item: ConditionItem)
  {
    match item
    case CallableItem(_) => true
    case StringItem(t) => Parse(t).Ok?
    case OtherItem => false
  }

  /** The stopping condition an accepted item becomes. */
  function StopFor(item: ConditionItem): Stop
    requires StopOk(item)
  {
    if item.CallableItem? then UserCondition(item.callable) else Parsed(Parse(item.text).value)
  }

  /** The error a refused item at position `i` raises. */
  function StopError(i: nat, item: ConditionItem): ConfigError
    requires !StopOk(item)
  {
    if item.StringItem? then InvalidConditionString(Parse(item.text).error) else InvalidStoppingCondition(i)
  }

  /**
   * The first `n` stopping conditions normalised: every one accepted and
   * turned into its condition, or the error of the first one refused.
   */
  function StopsUpTo(items: seq<ConditionItem>, n: nat): (r: Result<seq<Stop>, ConfigError>)
    requires n <= |items|
    ensures r.Ok? <==> forall i :: 0 <= i < n ==> StopOk(items[i])
    ensures r.Ok? ==> |r.value| == n && forall i :: 0 <= i < n ==> r.value[i] == StopFor(items[i])
    ensures r.Err? ==> exists k :: (0 <= k < n && !StopOk(items[k]) && r.error == StopError(k, items[k])
                                    && forall i :: 0 <= i < k ==> StopOk(items[i]))
  {
    if n == 0 then Ok([])
    else
      match StopsUpTo(items, n - 1)
      case Err(e) => Err(e)
      case Ok(ss) =>
        if StopOk(items[n - 1]) then Ok(ss + [StopFor(items[n - 1])])
        else Err(StopError(n - 1, items[n - 1]))
  }

  /** `_parse_stopping_conditions` (lines 100-111). */
  method ParseStoppingConditions(items: seq<ConditionItem>) returns (r: Result<seq<Stop>, ConfigError>)
    ensures r == StopsUpTo(items, |items|)
  {
    var parsed: seq<Stop> := [];
    for i := 0 to |items|
      invariant StopsUpTo(items, i) == Ok(parsed)
    {
      match items[i]
      case CallableItem(f) =>
        parsed := parsed + [UserCondition(f)];
      case StringItem(t) =>
        var c := Parse(t);
        if c.Err? {
          return Err(InvalidConditionString(c.error));
        }
        parsed := parsed + [Parsed(c.value)];
      case OtherItem =>
        return Err(InvalidStoppingCondition(i));
    }
    return Ok(parsed);
  }

  // ---------------------------------------------------------------------
  // Construction

  /** The phases and stopping conditions a successful construction keeps. */
  datatype Setup<!D, !E> = Setup(phases: seq<Phase<D, E>>, stops: seq<Stop>)

  /**
   * The checks of the constructor (lines 64-73), in the order the source
   * makes them: the two assertions, then the curriculum list, then the
   * stopping conditions.
   */
  function Configure<D, E>(env: TaskSpace<D, E>, items: seq<PhaseItem<D, E>>, conds: seq<ConditionItem>): (r: Result<Setup<D, E>, ConfigError>)
    ensures r.Ok? <==> (&& |items| > 0 && |conds| == |items| - 1
                        && (forall i :: 0 <= i < |items| ==> Admissible(env, items[i]))
                        && (forall i :: 0 <= i < |conds| ==> StopOk(conds[i])))
    ensures |items| == 0 ==> r == Err(NoPhases)
    ensures |items| > 0 && |conds| != |items| - 1 ==> r == Err(WrongConditionCount)
    ensures |items| > 0 && |conds| == |items| - 1 && PhasesUpTo(env, items, |items|).Err? ==>
      r == Err(PhasesUpTo(env, items, |items|).error)
    ensures (&& |items| > 0 && |conds| == |items| - 1
             && (forall i :: 0 <= i < |items| ==> Admissible(env, items[i]))
             && StopsUpTo(conds, |conds|).Err?) ==> r == Err(StopsUpTo(conds, |conds|).error)
    ensures r.Ok? ==> |r.value.phases| == |items| > 0 && |r.value.stops| == |r.value.phases| - 1
    ensures r.Ok? ==> forall i :: 0 <= i < |items| ==> r.value.phases[i] == PhaseFor(env, items[i])
    ensures r.Ok? ==> forall i :: 0 <= i < |conds| ==> r.value.stops[i] == StopFor(conds[i])
  {
    if |items| == 0 then Err(NoPhases)
    else if |conds| != |items| - 1 then Err(WrongConditionCount)
    else
      match PhasesUpTo(env, items, |items|)
      case Err(e) => Err(e)
      case Ok(phases) =>
        match StopsUpTo(conds, |conds|)
        case Err(e) => Err(e)
        case Ok(stops) => Ok(Setup(phases, stops))
  }

  // ---------------------------------------------------------------------
  // Evaluating stopping conditions and recording episodes

  /** Calling a stopping condition against the ledger as it is now. */
  function StopHolds(stop: Stop, l: Ledger): (r: Result<bool, ConditionError>)
    ensures r.Err? ==> stop.Parsed?
  {
    match stop
    case UserCondition(f) => Ok(f(l))
    case Parsed(c) => Holds(c, l)
  }

  /** The phase index and the ledger: the orchestrator's mutable state. */
  datatype Progress = Progress(index: nat, ledger: Ledger)

  /** The state of a freshly constructed orchestrator (lines 73-81). */
  const Start := Progress(0, Initial)

  /**
   * `update_on_episode` (lines 190-201). The episode is booked first, so the
   * stopping condition sees it; the phase index then moves on by one exactly
   * when there is a condition for the current phase and it holds, and only
   * then are the phase counters cleared. An error raised by the condition
   * leaves the booking in place and the index where it was.
   */
  function AfterEpisode(stops: seq<Stop>, p: Progress, ret: real, len: int): (r: (Progress, Outcome<ConditionError>))
    ensures r.0.index == p.index || r.0.index == p.index + 1
    ensures r.0.index == p.index + 1 <==>
      p.index < |stops| && StopHolds(stops[p.index], p.ledger.Record(ret, len)) == Ok(true)
    ensures r.0.ledger.totalEpisodes == p.ledger.totalEpisodes + 1
    ensures r.0.ledger.totalSteps == p.ledger.totalSteps + len
    ensures r.0.index == p.index + 1 ==>
      r.0.ledger.nSteps == 0 && r.0.ledger.nEpisodes == 0 && r.0.ledger.episodeReturns == []
    ensures r.0.index == p.index ==>
      r.0.ledger.nSteps == p.ledger.nSteps + len && r.0.ledger.nEpisodes == p.ledger.nEpisodes + 1
      && r.0.ledger.episodeReturns == p.ledger.episodeReturns + [ret]
    ensures p.ledger.Valid() ==> r.0.ledger.Valid()
    ensures r.1 == if p.index < |stops| && StopHolds(stops[p.index], p.ledger.Record(ret, len)).Err?
                   then Fail(StopHolds(stops[p.index], p.ledger.Record(ret, len)).error)
                   else Pass
  {
    var booked := p.ledger.Record(ret, len);
    if p.index < |stops| then
      match StopHolds(stops[p.index], booked)
      case Err(e) => (Progress(p.index, booked), Fail(e))
      case Ok(b) =>
        if b then (Progress(p.index + 1, booked.ResetPhase()), Pass)
        else (Progress(p.index, booked), Pass)
    else (Progress(p.index, booked), Pass)
  }

  /** A finished episode as reported to `update_on_episode`. */
  datatype Episode = Episode(ret: real, len: int)

  /** The state after a series of episodes, whatever the conditions raised on the way. */
  function Replay(stops: seq<Stop>, p: Progress, eps: seq<Episode>): Progress
  {
    if eps == [] then p
    else
      var e := eps[|eps| - 1];
      AfterEpisode(stops, Replay(stops, p, eps[..|eps| - 1]), e.ret, e.len).0
  }

  /** The total length of a series of episodes. */
  function Lengths(eps: seq<Episode>): int
  {
    if eps == [] then 0 else Lengths(eps[..|eps| - 1]) + eps[|eps| - 1].len
  }

  /**
   * Over any series of episodes the phase index only grows, by at most one
   * per episode, and never passes the last phase; the lifetime totals count
   * every episode and step; the ledger stays consistent.
   */
  lemma {:induction false} ReplayBounds(stops: seq<Stop>, p: Progress, eps: seq<Episode>)
    requires p.index <= |stops|
    ensures p.index <= Replay(stops, p, eps).index <= |stops|
    ensures Replay(stops, p, eps).index <= p.index + |eps|
    ensures Replay(stops, p, eps).ledger.totalEpisodes == p.ledger.totalEpisodes + |eps|
    ensures Replay(stops, p, eps).ledger.totalSteps == p.ledger.totalSteps + Lengths(eps)
    ensures p.ledger.Valid() ==> Replay(stops, p, eps).ledger.Valid()
  {
    if eps != [] {
      ReplayBounds(stops, p, eps[..|eps| - 1]);
    }
  }

  /**
   * A first phase whose stopping condition is the string `episodes>=n` lasts
   * exactly `n` episodes: before that the orchestrator stays in it, counting
   * them; the `n`-th episode moves it to the next phase with cleared phase
   * counters, while the lifetime total keeps all `n`.
   */
  lemma {:induction false} EpisodeThreshold(stops: seq<Stop>, n: nat, eps: seq<Episode>)
    requires n > 0 && |stops| > 0 && stops[0].Parsed?
    requires Parse(Clause(Episodes, Ge, n)) == Ok(stops[0].condition)
    requires |eps| <= n
    ensures Replay(stops, Start, eps).index == if |eps| == n then 1 else 0
    ensures Replay(stops, Start, eps).ledger.nEpisodes == if |eps| == n then 0 else |eps|
    ensures Replay(stops, Start, eps).ledger.totalEpisodes == |eps|
  {
    ClauseHolds(Episodes, Ge, n, Initial);
    ReplayBounds(stops, Start, eps);
    if eps != [] {
      var prev := eps[..|eps| - 1];
      EpisodeThreshold(stops, n, prev);
      var q := Replay(stops, Start, prev);
      var e := eps[|eps| - 1];
      var booked := q.ledger.Record(e.ret, e.len);
      ClauseHolds(Episodes, Ge, n, booked);
      assert StopHolds(stops[0], booked) == Ok(|eps| >= n);
    }
  }

  // ---------------------------------------------------------------------
  // sample

  /**
   * The recoding of lines 184-187: every task drawn from the phase is
   * decoded in the phase's space and encoded in the orchestrator's.
   */
  function Recode<D, E>(sub: TaskSpace<D, E>, env: TaskSpace<D, E>, tasks: seq<E>): (r: seq<E>)
    ensures |r| == |tasks|
    ensures forall i :: 0 <= i < |tasks| ==> r[i] == env.encode(sub.decode(tasks[i]))
  {
    var decoded := seq(|tasks|, i requires 0 <= i < |tasks| => sub.decode(tasks[i]));
    seq(|tasks|, i requires 0 <= i < |tasks| => env.encode(decoded[i]))
  }

  /**
   * When the orchestrator's encoding can be decoded again, each recoded task
   * stands for the very task the phase drew.
   */
  lemma RecodeKeepsTasks<D, E>(sub: TaskSpace<D, E>, env: TaskSpace<D, E>, tasks: seq<E>)
    requires forall d :: env.decode(env.encode(d)) == d
    ensures forall i :: 0 <= i < |tasks| ==> env.decode(Recode(sub, env, tasks)[i]) == sub.decode(tasks[i])
  {
    forall i | 0 <= i < |tasks|
      ensures env.decode(Recode(sub, env, tasks)[i]) == sub.decode(tasks[i])
    {
      DecodeEncoded(env, sub.decode(tasks[i]));
    }
  }

  lemma DecodeEncoded<D, E>(env: TaskSpace<D, E>, d: D)
    requires forall d :: env.decode(env.encode(d)) == d
    ensures env.decode(env.encode(d)) == d
  {
  }

  /**
   * A phase that samples in the orchestrator's own space (a `Noop` phase,
   * say) hands its tasks through unchanged when the encoding undoes the
   * decoding.
   */
  lemma RecodeInOwnSpace<D, E>(env: TaskSpace<D, E>, tasks: seq<E>)
    requires forall x :: env.encode(env.decode(x)) == x
    ensures Recode(env, env, tasks) == tasks
  {
  }

  // ---------------------------------------------------------------------
  // The class

  class SequentialMetaCurriculum<D, E> {
    const taskSpace: TaskSpace<D, E>
    const phases: seq<Phase<D, E>>
    const stops: seq<Stop>
    var curriculumIndex: nat
    var nSteps: int
    var totalSteps: int
    var nEpisodes: int
    var totalEpisodes: int
    var episodeReturns: seq<real>

    /** The ledger the stopping conditions read. */
    function Metrics(): Ledger
      reads this
    {
      Ledger(nSteps, totalSteps, nEpisodes, totalEpisodes, episodeReturns)
    }

    function State(): Progress
      reads this
    {
      Progress(curriculumIndex, Metrics())
    }

    /**
     * What construction establishes and every update keeps: at least one
     * phase, one stopping condition fewer than phases, the index on a phase,
     * and a consistent ledger.
     */
    ghost predicate Valid()
      reads this
    {
      && |phases| > 0
      && |stops| == |phases| - 1
      && curriculumIndex <= |stops|
      && Metrics().Valid()
    }

    /** Lines 72-81, once the arguments have passed their checks. */
    constructor (env: TaskSpace<D, E>, setup: Setup<D, E>)
      requires |setup.phases| > 0 && |setup.stops| == |setup.phases| - 1
      ensures taskSpace == env && phases == setup.phases && stops == setup.stops
      ensures State() == Start && Valid()
    {
      taskSpace := env;
      phases := setup.phases;
      stops := setup.stops;
      curriculumIndex := 0;
      nSteps := 0;
      totalSteps := 0;
      nEpisodes := 0;
      totalEpisodes := 0;
      episodeReturns := [];
    }

    /** `SequentialMetaCurriculum(curriculum_list, stopping_conditions)` (lines 64-81). */
    static method Create(env: TaskSpace<D, E>, items: seq<PhaseItem<D, E>>, conds: seq<ConditionItem>)
      returns (r: Result<SequentialMetaCurriculum<D, E>, ConfigError>)
      ensures var c := Configure(env, items, conds);
        && (r.Ok? <==> c.Ok?)
        && (r.Err? ==> r.error == c.error)
        && (r.Ok? ==> (&& fresh(r.value) && r.value.Valid() && r.value.State() == Start
                       && r.value.taskSpace == env && r.value.phases == c.value.phases
                       && r.value.stops == c.value.stops))
    {
      if |items| == 0 {
        return Err(NoPhases);
      }
      if |conds| != |items| - 1 {
        return Err(WrongConditionCount);
      }
      var phases := ParseCurriculumList(env, items);
      if phases.Err? {
        return Err(phases.error);
      }
      var stops := ParseStoppingConditions(conds);
      if stops.Err? {
        return Err(stops.error);
      }
      var m := new SequentialMetaCurriculum(env, Setup(phases.value, stops.value));
      return Ok(m);
    }

    /** `current_curriculum` (lines 168-170); once the conditions run out, the last phase. */
    function CurrentCurriculum(): (p: Phase<D, E>)
      reads this
      requires Valid()
      ensures p == phases[curriculumIndex]
      ensures curriculumIndex == |stops| ==> p == phases[|phases| - 1]
    {
      phases[curriculumIndex]
    }

    /**
     * `sample(k)` (lines 178-188): `draw` stands for the active phase's own
     * `sample`, and its tasks are recoded into the orchestrator's space.
     */
    method Sample(k: int, draw: (Phase<D, E>, int) -> seq<E>) returns (r: seq<E>)
      requires Valid()
      ensures r == Recode(PhaseSpace(phases[curriculumIndex]), taskSpace, draw(phases[curriculumIndex], k))
    {
      var curriculum := CurrentCurriculum();
      var tasks := draw(curriculum, k);
      r := Recode(PhaseSpace(curriculum), taskSpace, tasks);
    }

    /** `update_on_episode` (lines 190-201), in place. */
    method UpdateOnEpisode(episodeReturn: real, episodeLen: int) returns (o: Outcome<ConditionError>)
      requires Valid()
      modifies this
      ensures (State(), o) == AfterEpisode(stops, old(State()), episodeReturn, episodeLen)
      ensures Valid()
    {
      ghost var before := State();
      ghost var booked := before.ledger.Record(episodeReturn, episodeLen);
      nEpisodes := nEpisodes + 1;
      totalEpisodes := totalEpisodes + 1;
      nSteps := nSteps + episodeLen;
      totalSteps := totalSteps + episodeLen;
      episodeReturns := episodeReturns + [episodeReturn];
      assert Metrics() == booked;
      if curriculumIndex < |stops| {
        match StopHolds(stops[curriculumIndex], Metrics())
        case Err(e) =>
          return Fail(e);
        case Ok(b) =>
          if b {
            curriculumIndex := curriculumIndex + 1;
            nEpisodes := 0;
            nSteps := 0;
            episodeReturns := [];
            assert Metrics() == booked.ResetPhase();
          }
      }
      return Pass;
    }
  }
}
