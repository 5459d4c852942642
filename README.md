# Sequential curricula, modelled in Dafny

This project models `syllabus/curricula/sequential.py` of the Syllabus
curriculum-learning library. The file has three parts.

* **`SequentialCurriculum`** hands out the tasks of a fixed list in order.
  Each task is repeated its `num_repeats` count.
  - At the end of the list it either starts again (`repeat_list`) or raises.
  - `remaining_tasks()` counts what is left of the current pass.
* **The stopping-condition language** of `_parse_condition_string`. It turns
  strings such as `"steps>=100|episodes>=5"` into predicates over the run's
  metrics.
* **`SequentialMetaCurriculum`** plays a list of curricula one after the
  other.
  - It books every finished episode in a metrics ledger.
  - It moves to the next phase when the current phase's stopping condition
    holds.

Files:

* `results.dfy` (module `Results`) holds `Option`, `Result` and `Outcome`. They
  stand for values that Python returns or raises.
* `text.dfy` (module `Text`) holds `re.split` on one escaped character, and the
  decimal subset of `float()`.
* `metrics.dfy` (module `Metrics`) holds the ledger, the metric getters and the
  mean episode return.
* `conditions.dfy` (module `Conditions`) holds the condition parser and its
  evaluator.
  - At construction, only the shape of a string is checked: `|` before `&`,
    then the three-way split around `<=`, `>=`, `=`, `<` or `>`, then the
    metric name.
  - Composite fragments and the numeric threshold are parsed each time the
    condition is called.
  - OR and AND stop at the first fragment that decides the result, as
    Python's `any` and `all` do.
* `sequencer.dfy` (module `FlatSequencer`) holds the class
  `SequentialCurriculum`, with the cursor fields and a `Sample` loop.
  - `Sample` is proved against `Run`, the loop as a function.
  - `Expanded` is the intended pass: each task repeated its count.
  - `Cycled` is that pass repeated forever.
* `orchestrator.dfy` (module `PhaseOrchestrator`) holds the class
  `SequentialMetaCurriculum`, with the phase index and the ledger fields.
  - The two list-normalising loops of the constructor are methods. Each is
    proved against a function.
  - The per-episode update is proved against `AfterEpisode`.

Things outside the file become parameters:

* The environment's task space and the sub-curricula and task spaces in
  `curriculum_list` are records of functions (`contains`, `encode`,
  `decode`).
* Callable stopping conditions are predicates over the ledger.
* What the active phase's own `sample(k)` returns is a function argument of
  `SequentialMetaCurriculum.Sample`.

Behaviour worth knowing, which the model keeps as the code has it:

* The constructor of `SequentialCurriculum` does not check that `num_repeats`
  has one count per task. A count list that is too short only fails, with an
  `IndexError`, when it is read. The model returns `IndexOutOfRange` there.
* When a non-repeating list is exhausted, the failing call first resets
  `_task_index` to 0 and then raises. So the call after it succeeds and
  starts the list again; later calls do not keep failing.
* The numeric threshold of a clause, and every fragment of an OR or AND,
  are parsed only when the condition is evaluated, not at construction. A
  bad threshold or a bad fragment is reported by `update_on_episode`, and
  only if evaluation reaches it.
* A threshold that is not a number raises `float`'s own `ValueError` when
  the condition is called. The lambda runs outside the `try` of lines
  125-151, so that error is not rewrapped as "Invalid condition string".
  The model keeps the two apart as `InvalidNumber` and `InvalidCondition`.

## Model

| member | source | states |
|---|---|---|
| FlatSequencer.SequentialCurriculum.constructor | syllabus/curricula/sequential.py:15-21 | The cursor starts at (0, 0). `num_repeats` defaults to one repetition per task and is otherwise kept unchecked. |
| FlatSequencer.SequentialCurriculum.Advance | syllabus/curricula/sequential.py:36-48 | One loop pass changes the cursor in place exactly as the step function says, including the reset to 0 that precedes the exhaustion error. |
| FlatSequencer.SequentialCurriculum.Sample | syllabus/curricula/sequential.py:29-49 | `sample(k)` leaves the cursor where `k` loop passes leave it, even when one raises. It returns their items, or the first exception with the collected items discarded. With a well-formed schedule and `repeat_list` set, it returns exactly `k` items: the next `k` of the endless repetition of the pass. The cursor invariant is kept. |
| FlatSequencer.SequentialCurriculum.SampleCycles | syllabus/curricula/sequential.py:29-49 | With `repeat_list` set, a well-formed schedule and a cursor that keeps the invariant, `k` passes raise nothing and follow the cycle. |
| FlatSequencer.SequentialCurriculum.RemainingTasks | syllabus/curricula/sequential.py:51-57 | `remaining_tasks()` is 0 past the end of the list, and an `IndexError` when the current task has no count. Under the invariant it is the length of the pass minus the cursor's position, and it is 0 exactly at the end of the list. |
| FlatSequencer.PositionBounds | syllabus/curricula/sequential.py:42-48 | Under the cursor invariant, the cursor's position lies within one pass. It equals the pass length exactly when the task index is the list length. |
| FlatSequencer.StepInPass | syllabus/curricula/sequential.py:42-48 | Before the end of the list, a pass keeps the cursor invariant and moves one position on. The task index advances exactly when the repetition count is reached, and the repetition index then resets to 0. |
| FlatSequencer.StepItem | syllabus/curricula/sequential.py:42 | Before the end of the list, the item handed out is the one at the cursor's position in the pass. |
| FlatSequencer.ExpandAt | syllabus/curricula/sequential.py:42-48 | Repetition `r` of task `t` sits at offset `sum(num_repeats[:t]) + r` of the pass. |
| FlatSequencer.ExpandLength | syllabus/curricula/sequential.py:39 | A pass is `sum(num_repeats)` items long. |
| FlatSequencer.Step | syllabus/curricula/sequential.py:36-48 | One loop pass hands out only tasks of the list. It raises the exhaustion error exactly when the list has been walked to its end without `repeat_list`, and that error carries `sum(num_repeats)`. On a well-formed schedule, before the end of the list, it hands out the task at the cursor. |
| FlatSequencer.Run | syllabus/curricula/sequential.py:34-48 | `n` loop passes hand out at most `n` items, all tasks of the list. They hand out exactly `n` exactly when none raises. |
| FlatSequencer.CycleStep | syllabus/curricula/sequential.py:36-48 | With `repeat_list` set, a pass wraps at the end of the list. It hands out the item at the cursor's position in the endless cycle and moves one position on, modulo the pass length. |
| FlatSequencer.CycleCursor | syllabus/curricula/sequential.py:34-48 | With `repeat_list` set, `n` passes never raise, keep the cursor invariant and move the cursor `n` positions on, modulo the pass length. |
| FlatSequencer.CycleOrder | syllabus/curricula/sequential.py:29-49 | With `repeat_list` set, `n` passes hand out exactly `n` items. The `j`-th is the item at the cursor's position plus `j` in the endless repetition of the pass. |
| FlatSequencer.SinglePassCursor | syllabus/curricula/sequential.py:34-48 | `n` passes that stay within one pass never raise, whatever `repeat_list` says. They move the cursor exactly `n` positions on and keep the invariant. |
| FlatSequencer.SinglePass | syllabus/curricula/sequential.py:29-49 | `n` passes that stay within one pass hand out the next `n` items of the pass in order. |
| FlatSequencer.EndOfPass | syllabus/curricula/sequential.py:46-48 | Under the invariant, the end of the pass is the cursor `(len(task_list), 0)`. |
| FlatSequencer.Exhaustion | syllabus/curricula/sequential.py:36-39 | Without `repeat_list`, from a fresh cursor the first `sum(num_repeats)` items are the whole pass. The next request raises the exhaustion error carrying `sum(num_repeats)`, and leaves the cursor back at (0, 0). |
| FlatSequencer.RunStaysFaulted | syllabus/curricula/sequential.py:34-39 | Once a pass raises, the call is over: further passes change nothing. |
| FlatSequencer.SumOfSuffix | syllabus/curricula/sequential.py:57 | The sum of `num_repeats[t:]` is the whole sum less the sum of the first `t` counts. |
| FlatSequencer.Remaining | syllabus/curricula/sequential.py:51-57 | The closed form is 0 at or past the end. It is an `IndexError` when the cursor's task has no count in `num_repeats`. Under the invariant it equals the pass length minus the position, and is 0 exactly at the end of the list. |
| FlatSequencer.RestOfPass | syllabus/curricula/sequential.py:55-57 | What is left of the current task plus the later counts is exactly what is left of the pass. It is positive before the end of the list. |
| FlatSequencer.RemainingCountsDown | syllabus/curricula/sequential.py:42-57 | Within a pass, every item handed out lowers `remaining_tasks()` by exactly 1. |
| Metrics.Ledger.Record | syllabus/curricula/sequential.py:191-195 | Booking an episode adds its length to both step counters and one to both episode counters, so the getters `_get_steps` and `_get_episodes` (lines 153-160) move by that much. The lifetime totals stay ahead of the phase counters by the same amount. The new mean return times the number of returns is the old sum plus the new return. The ledger stays consistent. |
| Metrics.Ledger.ResetPhase | syllabus/curricula/sequential.py:199-201 | A transition makes the steps, episodes and mean-return getters read 0, keeps the lifetime totals, and leaves a consistent ledger. |
| Metrics.Ledger.EpisodeReturn | syllabus/curricula/sequential.py:165-166 | The metric is 0 with no returns. Otherwise it times the number of returns gives their sum: the mean, with no division by zero. |
| Metrics.MeanWithinBounds | syllabus/curricula/sequential.py:165-166 | The mean return lies between the smallest and the largest return. |
| Text.SplitOn | syllabus/curricula/sequential.py:118-121 | `re.split` on one escaped character gives one field more than the character's occurrences. No field holds the character, and joining the fields with it gives the string back. |
| Text.SplitOnJoin | syllabus/curricula/sequential.py:118-121 | Splitting the join of fields that do not hold the separator gives the fields back. |
| Text.Strip | syllabus/curricula/sequential.py:139-147 | The result is a slice of the string with only whitespace cut off before and after it. It neither starts nor ends with whitespace, and a string without any whitespace is left as it is. |
| Text.ParseRealOfNat | syllabus/curricula/sequential.py:139-147 | `float()` of the decimal digits of `n` is `n`. |
| Text.ParseUnsignedOfDecimal | syllabus/curricula/sequential.py:139-147 | An unsigned decimal literal, with or without a fraction, is read as its digits plus its fraction digits over the matching power of ten. |
| Text.DecimalTextStripped | syllabus/curricula/sequential.py:139-147 | A decimal literal holds only digits, a point and a sign, so stripping whitespace leaves it as it is. |
| Text.ParseRealOfDecimal | syllabus/curricula/sequential.py:139-147 | `float()` reads every decimal literal, signed or not, with or without a fraction, back as the exact number it denotes. This characterises `ParseReal` on its whole decimal subset. |
| Conditions.MetricNamed | syllabus/curricula/sequential.py:129-136 | Exactly `steps`, `episodes` and `episode_return` name a metric, and each names its own. |
| Conditions.ComparatorNamed | syllabus/curricula/sequential.py:138-149 | Exactly `<`, `>`, `<=`, `>=` and `=` name a comparator, and each names its own. |
| Conditions.TokenAt | syllabus/curricula/sequential.py:124 | A comparator starts at a position exactly when a comparator character is there. The token found fits in the string. |
| Conditions.TokenSpelled | syllabus/curricula/sequential.py:124 | The token found at a position is spelled there. |
| Conditions.SplitComparators | syllabus/curricula/sequential.py:124 | The regex split alternates comparator-free text with comparators, and concatenating its parts gives the string back. |
| Conditions.NoComparator | syllabus/curricula/sequential.py:124-127 | A string with no comparator character splits into itself alone. |
| Conditions.ClauseSplit | syllabus/curricula/sequential.py:124-127 | `a<c>b` with comparator-free `a` and `b` splits into exactly `[a, c, b]`, and `<=`/`>=` are not cut at `<`/`>`. |
| Conditions.SplitAroundToken | syllabus/curricula/sequential.py:124 | A string with a single comparator splits around it. |
| Conditions.ParseAtomic | syllabus/curricula/sequential.py:124-137 | A clause is accepted exactly when it splits into three parts and the first names a metric. Otherwise it is the "Invalid condition string" error. An accepted clause is the metric, the comparator and the still unparsed value, in that order. |
| Conditions.Parse | syllabus/curricula/sequential.py:113-151 | A string holding `|` is an OR of its `|`-fragments even when it also holds `&`. Otherwise a string holding `&` is an AND of its `&`-fragments. Otherwise it is a clause. Only clauses can fail at construction. The fragments rejoin to the string. |
| Conditions.ClauseRoundTrip | syllabus/curricula/sequential.py:124-151 | Construction accepts every well-formed clause and gives back its metric, comparator and unparsed value. |
| Conditions.CompareLiteral | syllabus/curricula/sequential.py:138-147 | Calling a clause whose threshold is a natural-number literal compares the live metric with that number, using the clause's relation. |
| Conditions.CompareDecimal | syllabus/curricula/sequential.py:138-147 | Calling a clause whose threshold is any decimal literal, signed or with a fraction, compares the live metric with the number it denotes, using the clause's relation. |
| Conditions.Holds | syllabus/curricula/sequential.py:138-147 | Calling a clause can only raise the number error of its own threshold. |
| Conditions.AnyHolds | syllabus/curricula/sequential.py:119 | An OR is false only when every fragment evaluated to false, and true only when some fragment evaluated to true. |
| Conditions.AllHolds | syllabus/curricula/sequential.py:122 | An AND is true only when every fragment evaluated to true, and false only when some fragment evaluated to false. |
| Conditions.AnyStopsAtFirstDecisive | syllabus/curricula/sequential.py:117-119 | An OR's result is that of the first fragment that is not false: true, or the error raised while parsing or evaluating it. Later fragments are never looked at. |
| Conditions.AnyIsDisjunction | syllabus/curricula/sequential.py:119 | When every fragment evaluates, an OR holds exactly when some fragment holds. |
| Conditions.AllStopsAtFirstDecisive | syllabus/curricula/sequential.py:120-122 | An AND's result is that of the first fragment that is not true. Later fragments are never looked at. |
| Conditions.AllIsConjunction | syllabus/curricula/sequential.py:122 | When every fragment evaluates, an AND holds exactly when every fragment holds. |
| Conditions.SingleFragment | syllabus/curricula/sequential.py:117-122 | An OR or AND of one fragment behaves as that fragment. |
| Conditions.OrOfTwo | syllabus/curricula/sequential.py:117-119 | `a|b` is the OR of `a` and `b`. It holds when `a` does, without parsing `b`, and otherwise it is `b`'s result. |
| Conditions.AndOfTwo | syllabus/curricula/sequential.py:120-122 | `a&b` is the AND of `a` and `b`. It fails when `a` does, without parsing `b`, and otherwise it is `b`'s result. |
| Conditions.NoComparatorRejected | syllabus/curricula/sequential.py:124-151 | A string with no comparator and no operator is rejected at construction. |
| Conditions.ClauseHolds | syllabus/curricula/sequential.py:124-147 | The clause `<metric><comparator><n>` parses and, when called, compares the metric with `n`. |
| Conditions.DecimalClauseHolds | syllabus/curricula/sequential.py:124-147 | The clause `<metric><comparator><literal>` with any decimal literal parses and, when called, compares the metric with the literal's value. |
| Conditions.HalfReturnThreshold | syllabus/curricula/sequential.py:124-147 | `episode_return>=0.5` holds exactly when the mean phase return is at least one half. |
| Conditions.NegativeThreshold | syllabus/curricula/sequential.py:124-147 | `steps>-1` reads its threshold with the sign. It holds exactly when the phase step count is not negative. |
| Conditions.ClauseHasNoOperator | syllabus/curricula/sequential.py:117-122 | Such a clause contains neither `|` nor `&`, so it is taken as atomic. |
| Conditions.OrOfClauses | syllabus/curricula/sequential.py:117-147 | The OR of two clauses holds exactly when either comparison does. |
| Conditions.AndOfClauses | syllabus/curricula/sequential.py:120-147 | The AND of two clauses holds exactly when both comparisons do. |
| Conditions.ClauseOrMalformed | syllabus/curricula/sequential.py:117-151 | A clause OR a malformed fragment is accepted at construction. It holds when the clause does, and raises "Invalid condition string" only when it is evaluated and the clause is false. |
| Conditions.StepsThreshold | syllabus/curricula/sequential.py:124-147 | `steps>=100` holds exactly when the phase has taken at least 100 steps. |
| Conditions.EpisodesAtMostThree | syllabus/curricula/sequential.py:124-147 | `episodes<=3` parses with the comparator `<=`, not `<`, and holds exactly when at most 3 phase episodes were booked. |
| Conditions.StepsOrEpisodes | syllabus/curricula/sequential.py:117-147 | `steps>=100|episodes>=5` holds exactly when either threshold is met. |
| Conditions.StepsAndEpisodes | syllabus/curricula/sequential.py:120-147 | `steps>=100&episodes>=5` holds exactly when both thresholds are met. |
| Conditions.OrBeforeAnd | syllabus/curricula/sequential.py:117-122 | A string holding both operators is split at `|` first, and its `&` stays inside a fragment. |
| Conditions.AndFragment | syllabus/curricula/sequential.py:120-122 | That fragment is in turn an AND of its clauses. |
| Conditions.NoWhitespaceStripping | syllabus/curricula/sequential.py:124-136 | `steps >= 1` is rejected, because its metric part is `steps ` with a trailing space. |
| Conditions.MalformedFragmentIsLazy | syllabus/curricula/sequential.py:117-119 | `steps>=1|oops` is accepted at construction. It holds once a step was taken, and only otherwise raises for `oops`. |
| Conditions.NotANumber | syllabus/curricula/sequential.py:139 | `float("many")` raises. |
| Conditions.ThresholdIsLazy | syllabus/curricula/sequential.py:139-147 | `steps>=many` is accepted at construction, and raises the number error each time it is called. |
| Conditions.MeanReturnWithoutEpisodes | syllabus/curricula/sequential.py:165-166 | With no returns booked, `episode_return=0` holds. |
| PhaseOrchestrator.PhasesUpTo | syllabus/curricula/sequential.py:83-98 | The curriculum list is accepted exactly when every item is a curriculum, a task space, or a task the environment's space contains. Each becomes itself, a domain-randomisation phase or a no-op phase in the environment's space. Otherwise the error names the first item refused. |
| PhaseOrchestrator.ParseCurriculumList | syllabus/curricula/sequential.py:83-98 | The loop computes exactly that normalisation. |
| PhaseOrchestrator.StopsUpTo | syllabus/curricula/sequential.py:100-111 | The stopping conditions are accepted exactly when each is a callable or a string that parses. The error is that of the first one refused: the condition-string error for a string, the invalid-stopping-condition error otherwise. |
| PhaseOrchestrator.ParseStoppingConditions | syllabus/curricula/sequential.py:100-111 | The loop computes exactly that normalisation. |
| PhaseOrchestrator.StopHolds | syllabus/curricula/sequential.py:197 | Calling a stopping condition can raise only when it is a condition string; a callable always answers. |
| PhaseOrchestrator.Configure | syllabus/curricula/sequential.py:64-73 | Construction succeeds exactly when there is a phase, there is one stopping condition fewer than phases, and both lists normalise. The errors are reported in the source's order: no phases, then the wrong condition count, then the first refused curriculum item, then the first refused condition, each with the error its normalisation gives. |
| PhaseOrchestrator.AfterEpisode | syllabus/curricula/sequential.py:190-201 | The episode is booked first, so the condition sees it. The index then moves on by at most one: exactly when a condition exists for the phase and holds. A transition clears exactly the phase counters and the returns. The lifetime totals always count the episode, and the ledger stays consistent. An error from the condition is returned as it is, and leaves the booking and the index. |
| PhaseOrchestrator.ReplayBounds | syllabus/curricula/sequential.py:190-201 | Over any series of episodes the index never decreases and grows by at most one per episode. It never passes the last phase, the totals count every episode and step, and the ledger stays consistent. |
| PhaseOrchestrator.EpisodeThreshold | syllabus/curricula/sequential.py:113-201 | A first phase whose condition is `episodes>=n` lasts exactly `n` episodes, counting them. The `n`-th episode moves to the next phase with cleared phase counters, and the lifetime total keeps all `n`. |
| PhaseOrchestrator.Recode | syllabus/curricula/sequential.py:184-187 | Each drawn task is decoded in the phase's space and encoded in the orchestrator's, one for one. |
| PhaseOrchestrator.RecodeKeepsTasks | syllabus/curricula/sequential.py:184-187 | When the orchestrator's encoding can be decoded again, every recoded task stands for the task the phase drew. |
| PhaseOrchestrator.RecodeInOwnSpace | syllabus/curricula/sequential.py:178-188 | A phase sampling in the orchestrator's own space, such as a no-op phase, passes its tasks through unchanged when encoding undoes decoding. |
| PhaseOrchestrator.SequentialMetaCurriculum.constructor | syllabus/curricula/sequential.py:72-81 | The orchestrator starts in phase 0 with an empty ledger, and its invariant holds. |
| PhaseOrchestrator.SequentialMetaCurriculum.Create | syllabus/curricula/sequential.py:64-81 | Construction raises exactly the error the checks give, and otherwise yields a fresh orchestrator holding the normalised phases and conditions. |
| PhaseOrchestrator.SequentialMetaCurriculum.CurrentCurriculum | syllabus/curricula/sequential.py:168-170 | The current phase is the one at the index. Once every condition has fired it is the last phase. |
| PhaseOrchestrator.SequentialMetaCurriculum.Sample | syllabus/curricula/sequential.py:178-188 | `sample(k)` delegates to the current phase and recodes its tasks into the orchestrator's space. |
| PhaseOrchestrator.SequentialMetaCurriculum.UpdateOnEpisode | syllabus/curricula/sequential.py:190-201 | The fields change in place exactly as `AfterEpisode` says, and the orchestrator's invariant is kept: the index stays on a phase and the ledger stays consistent. |

## Left out

- Text.ParseReal: models `float()` only for decimal literals: whitespace, a sign, digits and one `.`. Exponents, `inf`, `nan` and underscores are not modelled, so the model rejects such thresholds, which Python accepts. Only ASCII whitespace is stripped, where `float()` also strips Unicode whitespace such as `\x1c`-`\x1f`, `\x85` and `\xa0`. A literal's value is the exact rational it denotes, not the nearest double to which `float()` rounds it.
- Metrics.Ledger.EpisodeReturn: works on exact reals. Floating-point rounding in `sum(...)/len(...)` is not modelled.
- PhaseOrchestrator.SequentialMetaCurriculum.Sample: the active phase's own `sample(k)` is a function argument. The state a sub-curriculum changes while sampling, and its exceptions, are not modelled.
- PhaseOrchestrator.StopHolds: a callable stopping condition is a predicate over the ledger. It cannot read other state or raise.
- PhaseOrchestrator.ConfigError: `InvalidCurriculumItem` and `InvalidStoppingCondition` name the refused item by its position, where Python's message prints the item.
- The `Curriculum`, `TaskSpace`, `NoopCurriculum` and `DomainRandomization` classes of the library are not part of this model. They appear only as the functions listed above.
- `warnings.warn` for a single-phase list (lines 69-70): a side effect with no state.
- The `REQUIRES_*` class flags and `_sample_distribution` returning `None` (lines 11-13, 23-27, 61-63, 172-176): no behaviour.
- `_get_total_steps` and `_get_total_episodes` (lines 156-157, 162-163): no condition string can reach them.
- The final `else` of the comparator dispatch (lines 148-149): unreachable after the regex split.
- The `episode_task` and `env_id` arguments of `update_on_episode`: they are unused.
- The `*curriculum_args` and `**curriculum_kwargs` passed to the base class: only the task space they set up is modelled, as a constructor argument.
- The regular-expression engine: the three `re.split` calls are written out as explicit splitting functions.
