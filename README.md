# LightJason agent core in Dafny

This project models the core of LightJason, a Java framework for BDI agents programmed in
AgentSpeak(L++), and proves properties of the model. The repository holds two API
generations, and the model keeps them in separate modules:

- **Newer generation** (`org.lightjason.agentspeak`):
  - `AgentCycle` and `AgentCycleModel` cover the agent reasoning cycle of `IBaseAgent`:
    - a sleep counter with the `Long.MIN_VALUE` / `Long.MAX_VALUE` sentinels, and wake terms;
    - triggers pending for the next cycle, keyed by hash;
    - a plan registry ordered like a `TreeMultimap`, with per-plan success and failure counters;
    - the running-plans index;
    - the cycle itself: `active`, then `generateexecutionlist`, then `execute`.
  - `AgentSpeakVariable` covers `CVariable`.
  - `AgentSpeakAssignment` covers the multi-variable assignment `CMultiAssignment`.
  - `AgentSpeakBuilder` covers the parser's builder `CAgentSpeak`.
  - `AgentSpeakRouting` covers the grid routing's `walkable` test (`IBaseRouting`).
- **Older generation** (`lightjason`):
  - `LegacyBeliefStorage` covers the belief storage `CBeliefStorage` and its multi-element
    iterator.
  - `LegacyTerms` covers raw terms (`CRawTerm`) and the term helpers of `CCommon`.
  - `LegacyRelocateVariable` covers `CRelocateVariable`.
  - `LegacyBuildinAction` covers the action naming of `IBuildinAction`.
  - `LegacyPlan` covers `CPlan`.
- `Wrappers` holds `Option` and `Result`. A Java exception is an `Err` whose `Error` names
  the exception class.

Objects whose fields the source updates in place are classes with `modifies` frames. These
are the agent, the belief storage and its iterator, the variables and the multi-assignment.
Everything else is datatypes and functions.

The agent's collaborators are fixed at construction, as the `Env` value:
- `hashCode` and `structurehash` of triggers;
- unification together with plan instantiation;
- plan conditions;
- plan bodies, reduced to whether their defuzzified result counts as success.

The JVM services the legacy terms use (`hashCode`, `toString`, `CPath.from`) are a `Runtime`
value. Parallel streams are modelled as running sequentially in list order. Iteration over a
hash set or a hash map's values is a nondeterministic choice (`:|`), and the contracts hold
for every order.

## Model

| member | source | states |
|---|---|---|
| AgentCycle.Agent.constructor | src/main/java/org/lightjason/agentspeak/agent/IBaseAgent.java:152-165 | The registry is built from the configured plans and every counter starts at 0. The initial goal, if any, is pending under its hash code. The counter is `Long.MIN_VALUE`, so the agent is awake. No wake terms, no running plans. |
| AgentCycle.Agent.Sleeping | src/main/java/org/lightjason/agentspeak/agent/IBaseAgent.java:199-203 | The agent sleeps iff its counter is positive, so the `Long.MIN_VALUE` sentinel and 0 mean awake and `Long.MAX_VALUE` means asleep. |
| AgentCycle.Agent.Sleep | src/main/java/org/lightjason/agentspeak/agent/IBaseAgent.java:217-224 | The counter becomes exactly `cycles`. Only the variable-free terms join the wake terms. Nothing else changes. |
| AgentCycle.Agent.Active | src/main/java/org/lightjason/agentspeak/agent/IBaseAgent.java:467-491 | The new counter and the result are those of `ActiveStep`. When it fires, the wake-up goals are queued and the wake terms are cleared. Otherwise the pending triggers and wake terms are untouched. |
| AgentCycle.Agent.QueueWakeups | src/main/java/org/lightjason/agentspeak/agent/IBaseAgent.java:473-481 | The pending map becomes the old map with one wake-up goal per wake term (or the bare `wakeup` goal) put under its structure hash, in any order. |
| AgentCycle.PutWakeups | src/main/java/org/lightjason/agentspeak/agent/IBaseAgent.java:473-481 | Starting from the pending map, each wake-up goal (one per wake term, or the bare one) is put under its structure hash, overwriting; in whatever order the set is visited, the result is the map that `WakeupsQueued` describes. |
| AgentCycle.Agent.Wakeup | src/main/java/org/lightjason/agentspeak/agent/IBaseAgent.java:237-244 | All given terms join the wake terms, with no variable filter. Their wake-up goals are queued and the wake terms are cleared. The counter moves as `ActiveStep(c, true)`: a counter above 1 is only decremented. |
| AgentCycle.Agent.Trigger | src/main/java/org/lightjason/agentspeak/agent/IBaseAgent.java:320-342 | A sleeping agent returns fail and nothing changes; this is checked before variables. An awake agent given a literal with variables gets `NoSuchElement` and nothing changes. An immediate trigger runs `GenerateExecution([t])` as `Execute` does. Otherwise the trigger is put under its hash code with `PutIfAbsent`, and success is returned. |
| AgentCycle.Agent.IndexRunning | src/main/java/org/lightjason/agentspeak/agent/IBaseAgent.java:428-432 | The index is `Running` of the old index. Its keys are exactly the old keys and the pairs' trigger functors, and under each key are exactly the old literals and the allocated trigger literals of that key's pairs. Nothing else changes. |
| AgentCycle.Agent.RunPair | src/main/java/org/lightjason/agentspeak/agent/IBaseAgent.java:436-457 | The bookkeeping after one pair is `Step` of the bookkeeping before it: a successful body increments only its plan's success counter, a failed one only its fail counter, and the delete goal goes through `trigger`. |
| AgentCycle.Agent.RunList | src/main/java/org/lightjason/agentspeak/agent/IBaseAgent.java:435-458 | The bookkeeping after the loop is `Run` of the list's first `n` pairs, so by `RunCounts` each plan's success counter grows by its succeeding pairs and its fail counter by its failing ones. All pairs ran unless a delete goal was refused. The running index is untouched. |
| AgentCycle.Agent.Execute | src/main/java/org/lightjason/agentspeak/agent/IBaseAgent.java:425-459 | The running index is extended by `Running` for all pairs before any body runs. The counters, pending triggers and result are those of `Run`. A refused delete goal is a `NoSuchElement` error. |
| AgentCycle.Agent.GenerateExecutionList | src/main/java/org/lightjason/agentspeak/agent/IBaseAgent.java:377-390 | The running plans are cleared. The list is `GenerateExecution` of the pending triggers, listed once per key in some order, followed by the belief-base triggers. The pending map ends empty. |
| AgentCycle.Agent.Call | src/main/java/org/lightjason/agentspeak/agent/IBaseAgent.java:344-368 | An inactive agent only moves its counter. An active one queues wake-up goals when `ActiveStep` fires, drains all pending triggers into the list, and runs it from an empty running index and pending map. It then records the cycle time, except after an error. |
| AgentCycle.ListKeys | src/main/java/org/lightjason/agentspeak/agent/IBaseAgent.java:383 | Every key of the pending map is listed exactly once. |
| AgentCycleModel.ActiveStep | src/main/java/org/lightjason/agentspeak/agent/IBaseAgent.java:467-491 | It fires exactly when the counter is 0 or `immediately` is set. Only the 0 case resets to `Long.MIN_VALUE`. A positive counter other than `Long.MAX_VALUE` drops by exactly 1; negative counters and `Long.MAX_VALUE` stay put. The agent is active iff the new counter is <= 0. The counter stays in `long` range. |
| AgentCycleModel.WakeupComesOneCycleLate | src/main/java/org/lightjason/agentspeak/agent/IBaseAgent.java:471-490 | From counter 1, the first cycle is already active with no wake-up goal. The wake-up goal comes with the next cycle, which resets the counter to the sentinel. |
| AgentCycleModel.WakeupKeepsLongSleep | src/main/java/org/lightjason/agentspeak/agent/IBaseAgent.java:467-491 | `wakeup` on a counter above 1 fires but leaves the agent asleep, one cycle shorter. `Long.MAX_VALUE` is unchanged. |
| AgentCycleModel.SleepLastsItsCycles | src/main/java/org/lightjason/agentspeak/agent/IBaseAgent.java:486-490 | A finite positive counter `c` reaches `c - n` after `n` cycles, and the agent is active again exactly after `c` cycles. |
| AgentCycleModel.Ticks | src/main/java/org/lightjason/agentspeak/agent/IBaseAgent.java:486-490 | Repeated cycles keep the counter in `long` range. |
| AgentCycleModel.WakeTerms | src/main/java/org/lightjason/agentspeak/agent/IBaseAgent.java:473-479 | No wake terms give the single bare `wakeup` goal. Otherwise there is one `wakeup(t)` per stored term. |
| AgentCycleModel.QueuedPut | src/main/java/org/lightjason/agentspeak/agent/IBaseAgent.java:481 | One more `put` keeps the description of the queued wake-up goals exact. |
| AgentCycleModel.InsertPoint | src/main/java/org/lightjason/agentspeak/agent/IBaseAgent.java:111-112 | The place of a new plan: every entry before it has a lower rank, and the entry at it has no lower rank. |
| AgentCycleModel.InsertSorted | src/main/java/org/lightjason/agentspeak/agent/IBaseAgent.java:111-112 | One entry longer: entries before the insert point are kept, the plan sits at it, and later entries move up by one. |
| AgentCycleModel.InsertSortedKeepsOrder | src/main/java/org/lightjason/agentspeak/agent/IBaseAgent.java:111-112 | Inserting into a registry sorted by rank keeps it sorted. |
| AgentCycleModel.Insert | src/main/java/org/lightjason/agentspeak/agent/IBaseAgent.java:111-112 | A `put` into the registry keeps it sorted by rank, with no two entries sharing structure hash and rank. The plan's key and rank are registered afterwards, earlier entries stay, and nothing else is added. |
| AgentCycleModel.BuildRegistry | src/main/java/org/lightjason/agentspeak/agent/IBaseAgent.java:161 | The registry is sorted and duplicate-free and holds only configured plans. |
| AgentCycleModel.BuildRegistryComplete | src/main/java/org/lightjason/agentspeak/agent/IBaseAgent.java:161 | Every configured plan has its key and rank in the registry. |
| AgentCycleModel.PlansFrom | src/main/java/org/lightjason/agentspeak/agent/IBaseAgent.java:404 | `m_plans.get(trigger)` yields exactly the plans whose trigger has the same structure hash, each once, in registry order. |
| AgentCycleModel.PlansForOrdered | src/main/java/org/lightjason/agentspeak/agent/IBaseAgent.java:111-112 | The plans of one trigger come in strictly increasing rank, not in insertion order. |
| AgentCycleModel.Candidates | src/main/java/org/lightjason/agentspeak/agent/IBaseAgent.java:404-412 | The proposed pairs name registered plans. |
| AgentCycleModel.CandidatesExact | src/main/java/org/lightjason/agentspeak/agent/IBaseAgent.java:404-412 | A pair is proposed for a trigger iff the plan is among its plans, unifies into that context, and its condition holds there. |
| AgentCycleModel.GenerateExecution | src/main/java/org/lightjason/agentspeak/agent/IBaseAgent.java:399-417 | Every pair of the execution list names a registered plan. |
| AgentCycleModel.GenerateExecutionExact | src/main/java/org/lightjason/agentspeak/agent/IBaseAgent.java:399-417 | A pair is in the list iff some trigger has the plan's structure hash, unifies with it into that context, and the plan's condition holds (both directions). |
| AgentCycleModel.GenerateExecutionAppend | src/main/java/org/lightjason/agentspeak/agent/IBaseAgent.java:415-416 | The list of concatenated triggers is the concatenation of their lists, so duplicates are kept. |
| AgentCycleModel.ValuesInOrder | src/main/java/org/lightjason/agentspeak/agent/IBaseAgent.java:383 | The pending triggers are streamed in the order of a key listing. |
| AgentCycleModel.PutIfAbsent | src/main/java/org/lightjason/agentspeak/agent/IBaseAgent.java:338 | The key is present afterwards. An existing entry is kept, an absent one gets the trigger, and all other entries are unchanged. |
| AgentCycleModel.Running | src/main/java/org/lightjason/agentspeak/agent/IBaseAgent.java:429-432 | Every pair's allocated trigger literal is indexed under its functor, and earlier entries are kept. |
| AgentCycleModel.RunningExact | src/main/java/org/lightjason/agentspeak/agent/IBaseAgent.java:429-432 | The index holds nothing else: its keys are the old keys plus the pairs' functors, and each key holds the old literals plus the allocated literals of the pairs with that functor. |
| AgentCycleModel.IndexedByPairs | src/main/java/org/lightjason/agentspeak/agent/IBaseAgent.java:429-432 | A functor is among the pairs' functors exactly when some pair has it, and a literal is indexed under a key exactly when some pair of that functor allocates to it. |
| AgentCycleModel.Increment | src/main/java/org/lightjason/agentspeak/agent/IBaseAgent.java:446 | Exactly one plan's counter grows by 1. |
| AgentCycleModel.Step | src/main/java/org/lightjason/agentspeak/agent/IBaseAgent.java:436-457 | After a refusal a step changes nothing. Otherwise it appends whether the pair's body succeeded to the results. A success increments the plan's success counter and leaves the fail counters alone; a failure increments its fail counter and leaves the success counters alone. |
| AgentCycleModel.Run | src/main/java/org/lightjason/agentspeak/agent/IBaseAgent.java:435-458 | Running the list keeps one success and one failure counter per plan. |
| AgentCycleModel.RunCounts | src/main/java/org/lightjason/agentspeak/agent/IBaseAgent.java:444-456 | For every plan, its success counter grows by the number of its pairs that ran and succeeded, and its fail counter by the number that ran and failed, so each pair increments exactly one of its own plan's counters. Each result is whether that pair's body succeeded. All pairs run unless a delete goal was refused. |
| AgentCycleModel.OccurrencesSplit | src/main/java/org/lightjason/agentspeak/agent/IBaseAgent.java:444-456 | The runs of a plan are its successful runs plus its failed runs. |
| AgentCycleModel.StepShape | src/main/java/org/lightjason/agentspeak/agent/IBaseAgent.java:436-457 | A step that is not refused adds one success to the pair's plan when its body succeeds and one failure otherwise; no other counter moves. It refuses exactly when the agent is awake, the body failed and the delete goal's literal has a variable. |
| AgentCycleModel.RunResults | src/main/java/org/lightjason/agentspeak/agent/IBaseAgent.java:444-456 | Earlier results are kept, and the `j`-th new result is whether the `j`-th pair's body succeeded. |
| AgentCycleModel.RunTally | src/main/java/org/lightjason/agentspeak/agent/IBaseAgent.java:444-456 | Plan `i`'s success count grows by the number of its pairs that ran and succeeded, and its failure count by the number that ran and failed. |
| AgentCycleModel.RunKeepsPending | src/main/java/org/lightjason/agentspeak/agent/IBaseAgent.java:338 | Queuing delete goals never replaces a pending trigger. |
| AgentCycleModel.RunQueuesDeleteGoals | src/main/java/org/lightjason/agentspeak/agent/IBaseAgent.java:451-454 | On an awake agent, after a run without refusal, every failed plan's delete goal has its hash pending for the next cycle. |
| AgentCycleModel.RunStopsAtRefusal | src/main/java/org/lightjason/agentspeak/agent/IBaseAgent.java:324-329 | A refusal happens only on an awake agent. It happens at a pair whose plan failed and whose allocated delete-goal literal still has a variable. |
| AgentCycleModel.RunAfterRefusal | src/main/java/org/lightjason/agentspeak/agent/IBaseAgent.java:452-454 | After a refusal, no further pair changes anything. |
| AgentSpeakVariable.Variable.constructor | src/main/java/org/lightjason/agentspeak/language/variable/CVariable.java:56-66 | A new variable has its functor and no value. |
| AgentSpeakVariable.Variable.WithValue | src/main/java/org/lightjason/agentspeak/language/variable/CVariable.java:77-81 | The (functor, value) constructor stores both. |
| AgentSpeakVariable.Variable.Mutex | src/main/java/org/lightjason/agentspeak/language/variable/CVariable.java:95-99 | A plain variable is never a mutex. |
| AgentSpeakVariable.Variable.Set | src/main/java/org/lightjason/agentspeak/language/variable/CVariable.java:136-142 | After `setvalue` the value is the one given, and the variable itself is returned. |
| AgentSpeakVariable.Variable.ShallowCopy | src/main/java/org/lightjason/agentspeak/language/variable/CVariable.java:101-108 | A fresh variable with the same value. A first prefix is put in front of the functor. |
| AgentSpeakVariable.Variable.ShallowCopySuffix | src/main/java/org/lightjason/agentspeak/language/variable/CVariable.java:110-115 | A fresh variable with the functor's suffix and the same value. |
| AgentSpeakVariable.Variable.DeepCopy | src/main/java/org/lightjason/agentspeak/language/variable/CVariable.java:117-127 | A fresh variable with the value. A first prefix is appended after the functor, the opposite of `shallowcopy`. |
| AgentSpeakVariable.Variable.DeepCopySuffix | src/main/java/org/lightjason/agentspeak/language/variable/CVariable.java:129-134 | A fresh variable with the functor's suffix and the value. |
| AgentSpeakVariable.CopiesAreIndependent | src/main/java/org/lightjason/agentspeak/language/variable/CVariable.java:101-127 | Both copies are fresh and distinct. The shallow copy puts the prefix in front of the functor, the deep copy after it. Setting the shallow copy changes neither the original nor the deep copy. |
| AgentSpeakAssignment.FlattenTerm | src/main/java/org/lightjason/agentspeak/language/execution/assignment/CMultiAssignment.java:83 | Flattening one term leaves no list terms. |
| AgentSpeakAssignment.Flatten | src/main/java/org/lightjason/agentspeak/language/execution/assignment/CMultiAssignment.java:83 | The flattened results contain no list terms. |
| AgentSpeakAssignment.FlattenAtoms | src/main/java/org/lightjason/agentspeak/language/execution/assignment/CMultiAssignment.java:83 | Flattening plain values changes nothing. |
| AgentSpeakAssignment.FlattenAppend | src/main/java/org/lightjason/agentspeak/language/execution/assignment/CMultiAssignment.java:83 | Flattening keeps order: it distributes over concatenation. |
| AgentSpeakAssignment.Positional | src/main/java/org/lightjason/agentspeak/language/execution/assignment/CMultiAssignment.java:86-88 | The `i`-th positional write gives variable `i` the raw value of result `i`. |
| AgentSpeakAssignment.Writes | src/main/java/org/lightjason/agentspeak/language/execution/assignment/CMultiAssignment.java:86-93 | There are min(#variables, #results) positional writes, plus one tail write when 0 < #variables < #results. |
| AgentSpeakAssignment.WritesSplit | src/main/java/org/lightjason/agentspeak/language/execution/assignment/CMultiAssignment.java:86-93 | With more results than variables, every variable gets its positional write and the last also gets the tail. Otherwise only min(#variables, #results) positional writes happen. |
| AgentSpeakAssignment.LastWriteSnoc | src/main/java/org/lightjason/agentspeak/language/execution/assignment/CMultiAssignment.java:93 | A further write decides its own variable's value and no other's. |
| AgentSpeakAssignment.LastWriteUnique | src/main/java/org/lightjason/agentspeak/language/execution/assignment/CMultiAssignment.java:88 | A variable written once ends with that value. |
| AgentSpeakAssignment.LastWriteUntouched | src/main/java/org/lightjason/agentspeak/language/execution/assignment/CMultiAssignment.java:86-88 | A variable never written keeps its value. |
| AgentSpeakAssignment.AssignedValues | src/main/java/org/lightjason/agentspeak/language/execution/assignment/CMultiAssignment.java:86-93 | For distinct variables: variable `i` gets result `i`. With more results than variables, the last variable gets the sublist from position #variables-1 instead. Variables beyond the results keep their values. |
| AgentSpeakAssignment.AssignPositional | src/main/java/org/lightjason/agentspeak/language/execution/assignment/CMultiAssignment.java:86-88 | After the loop, every variable holds the value of its last positional write, or its old value. |
| AgentSpeakAssignment.MultiAssignment.constructor | src/main/java/org/lightjason/agentspeak/language/execution/assignment/CMultiAssignment.java:65-69 | The left-hand variables and the right-hand side are fixed at construction. |
| AgentSpeakAssignment.MultiAssignment.Variables | src/main/java/org/lightjason/agentspeak/language/execution/assignment/CMultiAssignment.java:116-124 | The left-hand variables come first, followed by the right-hand side's variables. |
| AgentSpeakAssignment.MultiAssignment.Targets | src/main/java/org/lightjason/agentspeak/language/execution/assignment/CMultiAssignment.java:84 | The context's instance of each left-hand variable, by functor. It exists iff every left-hand functor is in the context. |
| AgentSpeakAssignment.MultiAssignment.Execute | src/main/java/org/lightjason/agentspeak/language/execution/assignment/CMultiAssignment.java:73-96 | A failed or empty right-hand side gives `false` and assigns nothing. A missing variable is an error and assigns nothing. Otherwise every variable ends as `Writes` leaves it, and the result is `true`. The one exception: no left-hand variable with a non-empty result is the `get(-1)` error. |
| AgentSpeakBuilder.BuildAction | src/main/java/org/lightjason/agentspeak/grammar/builder/CAgentSpeak.java:314-325 | The proxy is built iff the functor is a known action and enough arguments are given, and it carries the literal's `@` flag. An unknown functor and too few arguments are distinct errors. |
| AgentSpeakBuilder.Unary | src/main/java/org/lightjason/agentspeak/grammar/builder/CAgentSpeak.java:206-220 | `++` increments, `--` decrements, anything else gives nothing. |
| AgentSpeakBuilder.BuildTestGoal | src/main/java/org/lightjason/agentspeak/grammar/builder/CAgentSpeak.java:191-197 | The dollar sign gives a rule test; without it, a goal test. |
| AgentSpeakBuilder.BuildBeliefAction | src/main/java/org/lightjason/agentspeak/grammar/builder/CAgentSpeak.java:280-290 | Add wins over delete; neither gives nothing. |
| AgentSpeakBuilder.Unification | src/main/java/org/lightjason/agentspeak/grammar/builder/CAgentSpeak.java:335-353 | An expression constraint gives expression-unify and a variable constraint gives variable-unify. Anything else gives default-unify. The parallel flag and the literal are kept. |
| AgentSpeakBuilder.Annotation | src/main/java/org/lightjason/agentspeak/grammar/builder/CAgentSpeak.java:138-170 | No text gives no annotation. "parallel" is tested before "atomic". A "constant" text matching the pattern fails on `group(2)`. Anything else gives no annotation. |
| AgentSpeakBuilder.ParallelBeforeAtomic | src/main/java/org/lightjason/agentspeak/grammar/builder/CAgentSpeak.java:146-148 | `@parallel atomic` is a parallel annotation. |
| AgentSpeakBuilder.OtherTextIsNoAnnotation | src/main/java/org/lightjason/agentspeak/grammar/builder/CAgentSpeak.java:138-169 | Any text without "parallel" and "atomic" is no annotation, unless it names "constant" and the constant pattern finds it. |
| AgentSpeakBuilder.DeconstructTarget | src/main/java/org/lightjason/agentspeak/grammar/builder/CAgentSpeak.java:297-305 | The literal wins over the variable. |
| AgentSpeakBuilder.BuildPlan | src/main/java/org/lightjason/agentspeak/grammar/builder/CAgentSpeak.java:93-103 | Every trigger and annotation stream gives the empty plan. |
| AgentSpeakBuilder.BuildRule | src/main/java/org/lightjason/agentspeak/grammar/builder/CAgentSpeak.java:112-117 | Every literal and annotation stream gives the empty rule. |
| AgentSpeakRouting.Truncate | src/main/java/org/lightjason/agentspeak/action/builtin/grid/routing/IBaseRouting.java:52 | `(int)` truncates toward zero for both signs. |
| AgentSpeakRouting.TruncateInRange | src/main/java/org/lightjason/agentspeak/action/builtin/grid/routing/IBaseRouting.java:52 | A coordinate inside the grid truncates to a valid index. |
| AgentSpeakRouting.DefaultRouting | src/main/java/org/lightjason/agentspeak/action/builtin/grid/routing/IBaseRouting.java:50-53 | The default walkable function is defined on every in-bounds position of a well-formed grid. |
| AgentSpeakRouting.Walkable | src/main/java/org/lightjason/agentspeak/action/builtin/grid/routing/IBaseRouting.java:73-83 | The returned position is always `direction(current)`. It is walkable iff it lies inside the grid and the walkable function holds there. |
| AgentSpeakRouting.DefaultWalkableStep | src/main/java/org/lightjason/agentspeak/action/builtin/grid/routing/IBaseRouting.java:73-83 | With the default routing, a step is walkable iff it stays inside the grid and lands on a non-null cell. |
| AgentSpeakRouting.NegativeFractionRefused | src/main/java/org/lightjason/agentspeak/action/builtin/grid/routing/IBaseRouting.java:78-80 | Row -0.5 is refused although it truncates to row 0, because bounds are tested on the reals. |
| LegacyBeliefStorage.BeliefStorage.constructor | src/main/java/lightjason/beliefbase/CBeliefStorage.java:44-54 | Both maps start empty. |
| LegacyBeliefStorage.BeliefStorage.AddMultiElement | src/main/java/lightjason/beliefbase/CBeliefStorage.java:56-62 | The key's set gains the element, and the set is created on first use. Other keys and the single map are unchanged. |
| LegacyBeliefStorage.BeliefStorage.AddSingleElement | src/main/java/lightjason/beliefbase/CBeliefStorage.java:64-68 | `put` replaces the key's single value. The multi map is unchanged. |
| LegacyBeliefStorage.BeliefStorage.Clear | src/main/java/lightjason/beliefbase/CBeliefStorage.java:70-75 | Both maps are emptied, so the storage is empty. |
| LegacyBeliefStorage.BeliefStorage.MultiOrEmpty | src/main/java/lightjason/beliefbase/CBeliefStorage.java:59 | An absent key's set is the fresh empty set. |
| LegacyBeliefStorage.BeliefStorage.GetMultiElement | src/main/java/lightjason/beliefbase/CBeliefStorage.java:99-103 | The key's set, or nothing (`null`) for an absent key. |
| LegacyBeliefStorage.BeliefStorage.GetSingleElement | src/main/java/lightjason/beliefbase/CBeliefStorage.java:105-109 | The key's value, or nothing (`null`) for an absent key. |
| LegacyBeliefStorage.BeliefStorage.Contains | src/main/java/lightjason/beliefbase/CBeliefStorage.java:77-81 | A key is contained iff `getMultiElement` or `getSingleElement` finds it. |
| LegacyBeliefStorage.BeliefStorage.ContainsMultiElement | src/main/java/lightjason/beliefbase/CBeliefStorage.java:83-91 | True iff the key has a multi entry and its set is not empty; it implies `contains`. |
| LegacyBeliefStorage.BeliefStorage.ContainsSingleElement | src/main/java/lightjason/beliefbase/CBeliefStorage.java:93-97 | True iff `getSingleElement` finds the key; it implies `contains`. |
| LegacyBeliefStorage.BeliefStorage.IsEmpty | src/main/java/lightjason/beliefbase/CBeliefStorage.java:111-115 | True iff no key is contained in either map. |
| LegacyBeliefStorage.BeliefStorage.Remove | src/main/java/lightjason/beliefbase/CBeliefStorage.java:117-121 | A single entry is removed alone and `true` is returned: the multi entry survives because `\|\|` short-circuits. Otherwise the multi entry is removed, returning whether it existed. |
| LegacyBeliefStorage.BeliefStorage.RemoveMultiElement | src/main/java/lightjason/beliefbase/CBeliefStorage.java:123-131 | An absent key gives `false` and nothing changes. Otherwise the element is removed, returning whether it was present, and the key stays mapped. When the last element goes, the key stays mapped but `containsMultiElement` is false. |
| LegacyBeliefStorage.BeliefStorage.RemoveSingleElement | src/main/java/lightjason/beliefbase/CBeliefStorage.java:133-137 | The single entry is removed, returning whether it existed. |
| LegacyBeliefStorage.BeliefStorage.SumMultiElementSizes | src/main/java/lightjason/beliefbase/CBeliefStorage.java:151-153 | The loop sums the sizes of all multi-element sets. |
| LegacyBeliefStorage.BeliefStorage.SizeMultiElement | src/main/java/lightjason/beliefbase/CBeliefStorage.java:148-155 | As written, 0 whatever the contents. |
| LegacyBeliefStorage.BeliefStorage.SizeSingleElement | src/main/java/lightjason/beliefbase/CBeliefStorage.java:157-161 | As written, the number of multi-element keys. |
| LegacyBeliefStorage.BeliefStorage.Size | src/main/java/lightjason/beliefbase/CBeliefStorage.java:163-167 | As written, the number of multi-element keys. |
| LegacyBeliefStorage.BeliefStorage.SizeMultiElementIntended | src/main/java/lightjason/beliefbase/CBeliefStorage.java:148-155 | The summed set sizes. It is 0 iff every set is empty. |
| LegacyBeliefStorage.BeliefStorage.SizeSingleElementIntended | src/main/java/lightjason/beliefbase/CBeliefStorage.java:157-161 | The number of single entries. It is 0 iff there are none. |
| LegacyBeliefStorage.SizeCounterexample | src/main/java/lightjason/beliefbase/CBeliefStorage.java:148-167 | With one multi element and no single element, the as-written sizes are 0 and 1 where 1 and 0 are meant. |
| LegacyBeliefStorage.EnumerateSet | src/main/java/lightjason/beliefbase/CBeliefStorage.java:180 | One pass over a set yields each element once. |
| LegacyBeliefStorage.MultiElementIterator.constructor | src/main/java/lightjason/beliefbase/CBeliefStorage.java:177-181 | One iterator is stacked per key. Together they hold every element of every set, once per key. |
| LegacyBeliefStorage.MultiElementIterator.HasNext | src/main/java/lightjason/beliefbase/CBeliefStorage.java:183-194 | Exhausted iterators are popped without losing elements. The result is whether anything remains, and then the top is non-empty. |
| LegacyBeliefStorage.MultiElementIterator.Next | src/main/java/lightjason/beliefbase/CBeliefStorage.java:196-200 | The next remaining element. An empty stack and an exhausted top are errors that change nothing. |
| LegacyBeliefStorage.DrainMultiElements | src/main/java/lightjason/beliefbase/CBeliefStorage.java:169-202 | Draining yields every element of every multi-element set exactly once per key that holds it. |
| LegacyBeliefStorage.BagCount | src/main/java/lightjason/beliefbase/CBeliefStorage.java:169-202 | An element occurs as often as there are keys whose set holds it. |
| LegacyBeliefStorage.SumOfSizesEmpty | src/main/java/lightjason/beliefbase/CBeliefStorage.java:151-153 | The summed size is 0 iff every set is empty. |
| LegacyTerms.From | src/main/java/lightjason/language/CRawTerm.java:62-83 | A raw term or variable hands over its value and functor. Any other value is kept with its `toString` path, and `null` gets the empty path. The hash is the value's `hashCode`, which for a raw-term value is that term's cached hash, or the identity hash for `null`. |
| LegacyTerms.FromRawIsIdentity | src/main/java/lightjason/language/CRawTerm.java:64-69 | The cached hash is always the one the constructor computes, also over a raw-term value. Wrapping an allocated raw term gives the same term. Wrapping one without value keeps its value and functor, and the hash is the new object's identity hash. |
| LegacyTerms.Equals | src/main/java/lightjason/language/CRawTerm.java:107-114 | Hash codes are compared. Against a variable, the `hashCode` of its value is used (the cached hash when the value is a raw term), and a `null` value or argument throws. |
| LegacyTerms.EqualsIsHashEquivalence | src/main/java/lightjason/language/CRawTerm.java:107-114 | Raw-term equality is reflexive, symmetric and transitive, and two terms over the same value are equal. |
| LegacyTerms.HashCodeOfValue | src/main/java/lightjason/language/CRawTerm.java:82 | A raw term over a non-null value has that value's hash. |
| LegacyTerms.GetFunctor | src/main/java/lightjason/language/CRawTerm.java:122-126 | The last segment of the functor path, or the empty string for the empty path. |
| LegacyTerms.GetFunctorPath | src/main/java/lightjason/language/CRawTerm.java:128-132 | One segment shorter than the functor path; followed by `getFunctor` it gives the whole path back. |
| LegacyTerms.IsAllocated | src/main/java/lightjason/language/CRawTerm.java:153-157 | True iff the value is not null. |
| LegacyTerms.ThrowNotAllocated | src/main/java/lightjason/language/CRawTerm.java:159-166 | The term itself iff it holds a value. Otherwise an `IllegalState` error, except for the call without names: `p_name[0]` of the empty array fails out of bounds first. |
| LegacyTerms.IsValueAssignableTo | src/main/java/lightjason/language/CRawTerm.java:168-172 | True for a `null` value. Otherwise true iff some class is assignable from the value. |
| LegacyTerms.ThrowValueNotAssignableTo | src/main/java/lightjason/language/CRawTerm.java:174-181 | The term itself iff assignable, otherwise an error. |
| LegacyTerms.DeepCopy | src/main/java/lightjason/language/CRawTerm.java:183-187 | A raw term over the same value; the prefix is ignored. |
| LegacyTerms.DeepCopySuffix | src/main/java/lightjason/language/CRawTerm.java:189-193 | The same as `deepcopy` with any prefix. |
| LegacyTerms.DeepCopyEqualsOriginal | src/main/java/lightjason/language/CRawTerm.java:183-193 | A copy of an allocated term equals it, both ways. |
| LegacyTerms.GetRawValue | src/main/java/lightjason/language/CCommon.java:94-103 | A variable's or raw term's value; any other object itself. |
| LegacyTerms.ReplaceFromContext | src/main/java/lightjason/language/CCommon.java:144-156 | A non-variable is kept. A variable becomes the context variable with its functor, or `IllegalArgument` when there is none. |
| LegacyTerms.ReplaceAllFromContext | src/main/java/lightjason/language/CCommon.java:131-134 | Succeeds iff every element does. The result then keeps length and order. |
| LegacyTerms.ReplaceAllSucceeds | src/main/java/lightjason/language/CCommon.java:131-156 | A context holding every variable makes the list replacement succeed and keep non-variables. |
| LegacyTerms.RawValueSmaller | src/main/java/lightjason/language/CCommon.java:216-227 | Unwrapping never grows a term, and a collection it yields is strictly smaller, so the recursion ends. |
| LegacyTerms.FlattenOne | src/main/java/lightjason/language/CCommon.java:219-225 | A value that is not a collection gives the one raw term built from it. A collection contributes every raw term of its non-collection elements. |
| LegacyTerms.Flatten | src/main/java/lightjason/language/CCommon.java:216-227 | Every element whose raw value is not a collection has its raw term in the stream. |
| LegacyTerms.FlatList | src/main/java/lightjason/language/CCommon.java:165-168 | It fails with `ClassCast` iff some collection reached on the way is not a `List`. Otherwise it is the flattened stream. |
| LegacyTerms.ListsOnlyAppend | src/main/java/lightjason/language/CCommon.java:216-227 | A concatenation casts safely iff both of its parts do. |
| LegacyTerms.FlattenHasNoCollections | src/main/java/lightjason/language/CCommon.java:165-168 | For elements whose variables and raw terms hold no nested wrappers, no flattened element holds a collection. |
| LegacyTerms.FlattenOneHasNoCollections | src/main/java/lightjason/language/CCommon.java:216-227 | The same for one element. |
| LegacyTerms.NestedTermKeepsCollection | src/main/java/lightjason/language/CCommon.java:216-227 | A variable holding a raw term over a list flattens to a term that still holds the list. |
| LegacyTerms.FlattenAppend | src/main/java/lightjason/language/CCommon.java:216-227 | Flattening keeps order over concatenation. |
| LegacyTerms.FlattenFlatList | src/main/java/lightjason/language/CCommon.java:216-227 | A list without collections flattens without error to one raw term per element. |
| LegacyTerms.CollectionSpliced | src/main/java/lightjason/language/CCommon.java:216-227 | A `List` element is replaced in place by its own elements: the outcome, list or `ClassCast`, is that of the spliced list. |
| LegacyTerms.OtherCollectionThrows | src/main/java/lightjason/language/CCommon.java:222-223 | A collection that is not a `List`, anywhere in the list, makes `flatList` fail with `ClassCast`. |
| LegacyTerms.EncodeChar | src/main/java/lightjason/language/CCommon.java:182 | UTF-8 uses 1 to 4 bytes, exactly 1 for ASCII. |
| LegacyTerms.EncodeUtf8Append | src/main/java/lightjason/language/CCommon.java:182 | Encoding distributes over concatenation. |
| LegacyTerms.EncodeAscii | src/main/java/lightjason/language/CCommon.java:182 | ASCII text encodes to its character codes. |
| LegacyTerms.Concatenated | src/main/java/lightjason/language/CCommon.java:180-181 | Defined iff no flattened value is `null`. |
| LegacyTerms.GetBytes | src/main/java/lightjason/language/CCommon.java:178-183 | `ClassCast` when flattening fails. Otherwise the UTF-8 bytes of the in-order concatenation of each flattened raw value's text, and an error iff some flattened value is null. |
| LegacyTerms.GetBytesAppend | src/main/java/lightjason/language/CCommon.java:178-183 | The bytes of two lists are the two byte sequences concatenated. |
| LegacyTerms.ConcatenatedAppend | src/main/java/lightjason/language/CCommon.java:180-181 | The text of two lists is the two texts concatenated. |
| LegacyRelocateVariable.Variable.Set | src/main/java/lightjason/language/variable/CRelocateVariable.java:46 | Setting the target variable stores the value and returns the variable itself. |
| LegacyRelocateVariable.RelocateVariable.constructor | src/main/java/lightjason/language/variable/CRelocateVariable.java:25-29 | The target is fixed and the own value starts as `null`. |
| LegacyRelocateVariable.RelocateVariable.Copy | src/main/java/lightjason/language/variable/CRelocateVariable.java:38-42 | The private constructor stores functor, value and target. |
| LegacyRelocateVariable.RelocateVariable.Relocate | src/main/java/lightjason/language/variable/CRelocateVariable.java:44-48 | The target takes this variable's value and is returned. This variable is unchanged. |
| LegacyRelocateVariable.RelocateVariable.ShallowCopy | src/main/java/lightjason/language/variable/CRelocateVariable.java:50-56 | A fresh copy with the same value and target. A first prefix goes in front of the functor. |
| LegacyRelocateVariable.RelocateVariable.ShallowCopySuffix | src/main/java/lightjason/language/variable/CRelocateVariable.java:58-62 | The suffix functor and the same target, without the value. |
| LegacyRelocateVariable.RelocationScenario | src/main/java/lightjason/language/variable/CRelocateVariable.java:44-48 | A value bound inside a plan reaches the outer variable through relocation. |
| LegacyBuildinAction.SplitAll | src/main/java/lightjason/agent/action/buildin/IBuildinAction.java:59 | Splitting on dots gives at least one piece, and none contains a dot. |
| LegacyBuildinAction.JoinSplitAll | src/main/java/lightjason/agent/action/buildin/IBuildinAction.java:59 | Joining the pieces with dots gives back the name. |
| LegacyBuildinAction.SplitAllJoin | src/main/java/lightjason/agent/action/buildin/IBuildinAction.java:59 | Splitting dot-free pieces joined by dots gives back the pieces. |
| LegacyBuildinAction.DropTrailingEmpty | src/main/java/lightjason/agent/action/buildin/IBuildinAction.java:59 | `String.split` drops exactly the trailing empty pieces. |
| LegacyBuildinAction.SplitDots | src/main/java/lightjason/agent/action/buildin/IBuildinAction.java:59 | A name without dots is one piece. No piece contains a dot. |
| LegacyBuildinAction.SplitDotsOfCanonical | src/main/java/lightjason/agent/action/buildin/IBuildinAction.java:59 | A name without empty pieces splits into all its pieces. |
| LegacyBuildinAction.LowerChar | src/main/java/lightjason/agent/action/buildin/IBuildinAction.java:62 | No upper-case letter survives. |
| LegacyBuildinAction.Lower | src/main/java/lightjason/agent/action/buildin/IBuildinAction.java:62 | Same length, lowered character by character, and the result is lower case. |
| LegacyBuildinAction.LowerAll | src/main/java/lightjason/agent/action/buildin/IBuildinAction.java:62 | Every segment is lowered and the number of segments is kept. |
| LegacyBuildinAction.Name | src/main/java/lightjason/agent/action/buildin/IBuildinAction.java:57-63 | The name is the last min(length, #segments) segments, lowered, after the class segment loses its first character. An empty class segment is out of bounds. A negative length is an illegal argument, unless `size - length` overflows Java `int`, in which case the whole name is kept. |
| LegacyBuildinAction.Sub32 | src/main/java/lightjason/agent/action/buildin/IBuildinAction.java:62 | Java `int` subtraction: the result is in `int` range, congruent to the true difference modulo 2^32, and equal to it when that is in range. |
| LegacyBuildinAction.NameEndsWithClass | src/main/java/lightjason/agent/action/buildin/IBuildinAction.java:60-62 | The name's last segment is the lowered class name without its first character. |
| LegacyBuildinAction.CanonicalName | src/main/java/lightjason/agent/action/buildin/IBuildinAction.java:57-63 | For a canonical name made of non-empty pieces, the name is its lowered tail. |
| LegacyBuildinAction.CreateActionName | src/main/java/lightjason/agent/action/buildin/collection/map/CCreate.java:45-48 | `CCreate` (canonical name `lightjason.agent.action.buildin.collection.map.CCreate`) with length 3 is named `collection.map.create`. |
| LegacyBuildinAction.PackagedActionName | src/main/java/lightjason/agent/action/buildin/IBuildinAction.java:57-63 | Any canonical name of seven non-empty pieces ending in `collection.map.CCreate` gives that name with length 3. |
| LegacyBuildinAction.LowerKeepsLowerCase | src/main/java/lightjason/agent/action/buildin/IBuildinAction.java:62 | Lower-casing leaves lower-case text unchanged. |
| LegacyBuildinAction.UnqualifiedName | src/main/java/lightjason/agent/action/buildin/IBuildinAction.java:57-63 | A name without dots gives the single lowered segment without its first character. |
| LegacyBuildinAction.NegativeLengthWraps | src/main/java/lightjason/agent/action/buildin/IBuildinAction.java:57-63 | With length -1 a name is an illegal argument; with `Integer.MIN_VALUE` the subtraction wraps and the whole name is kept. |
| LegacyBuildinAction.DegenerateNames | src/main/java/lightjason/agent/action/buildin/IBuildinAction.java:59-60 | The names `""` and `".."` fail out of bounds. |
| LegacyPlan.NewPlan | src/main/java/lightjason/language/plan/CPlan.java:45-79 | The constructor stores event, literal and body. The state is Success and both run counters start at 0. |
| LegacyPlan.Evaluated | src/main/java/lightjason/language/plan/CPlan.java:97 | `allMatch` evaluates a prefix of the body. Everything before its last operation was true, and it stops early only at a false one. |
| LegacyPlan.Conjunction | src/main/java/lightjason/language/plan/CPlan.java:97 | The short-circuit conjunction holds iff every operation evaluates to true, so an empty list holds. |
| LegacyPlan.Evaluate | src/main/java/lightjason/language/plan/CPlan.java:93-98 | `evaluate` holds iff every body operation is true. |
| LegacyPlan.EvaluatedStopsAtFirstFailure | src/main/java/lightjason/language/plan/CPlan.java:97 | The evaluation stops exactly at the first false operation. |
| LegacyPlan.NewPlanEvaluatesBody | src/main/java/lightjason/language/plan/CPlan.java:74-98 | A new plan evaluates its body, and its trigger is the given event. |

## Left out

- Concurrency: synchronized wrappers, atomic counters, concurrent maps and parallel streams all run sequentially in the model. Races between `trigger`, `sleep` and a running cycle are not modelled.
- AgentCycle.Agent.Trigger: the stream `execute` returns is lazy. The model runs the plans at once, like a caller that consumes the stream; running plans are indexed eagerly in both.
- AgentCycle.Agent.Execute: plan bodies do not change agent state in the model. A body that calls `sleep` or `trigger` on its own agent is not captured.
- AgentCycle.Agent.Call: `m_beliefbase.update`, `m_fuzzy.update`, rules, the storage map and `inspect` are not modelled. The belief base's triggers are a parameter, and `System.nanoTime` is the parameter `now`.
- The plan and rule counters are unbounded, so `long` overflow of the success and fail counts is not modelled. The sleep counter is kept in `long` range explicitly.
- `CLiteral`, `CTrigger`, `structurehash`, `hashCode` and the unifier are collaborators, passed as the `Env` value. Only `hasVariable` and `allocate` are given a definition, over a small term datatype.
- The plan statistic's natural order is given as a `rank` per plan. When the parallel stream offers plans with equal key and rank, the one offered first is kept; in the source, which one stays depends on timing.
- The newer-generation `CCommon` (`flatten`, `replacebycontext`) is not part of this model. `CMultiAssignment` is modelled with a flatten and a by-functor lookup of the same shape as the legacy helpers.
- AgentSpeakBuilder.BuildPlan and AgentSpeakBuilder.BuildRule: they return the empty plan and rule. The lazily mapped annotation stream is never consumed, so it is not modelled. `ITrigger.EType.from`, which reads the trigger text in `plan`, is not part of this model, so a failure of it on unknown text is not captured.
- AgentSpeakBuilder.Annotation: the regular expression is a parameter (`constantFound`), and only the keyword branches are modelled.
- LegacyTerms.From: every raw term over `null` gets the same identity hash `rt.identity`. In the JVM each new `CRawTerm` has its own `Object.hashCode`, so two such terms are in general not `equals`. The model makes them equal, which is why `FromRawIsIdentity` promises an unchanged re-wrap only for allocated terms.
- `CPath` is not part of this model. Three of its behaviours on the empty path are assumed: `getSuffix` of `CPath.EMPTY` is `""` (`Suffix`), `getSubPath(0, -1)` of it is the empty path (`Prefix`), and `CPath.from("")` is the one-segment path `[""]` (the suffix copies of a variable).
- LegacyTerms: `toString`, `CPath.from` parsing, Java reflection for `isAssignableFrom`, and reference identity are parameters or left out. `String.getBytes` is modelled for UTF-8 only.
- LegacyBuildinAction.Lower: only ASCII letters are lower-cased. Java's locale- and Unicode-aware `toLowerCase` is not modelled.
- `getCanonicalName` returning `null` for anonymous or local classes is not modelled; the class name is a plain string.
- LegacyBeliefStorage.BeliefStorage.GetMultiElement: the source returns the live set of the map, so a caller that adds to or removes from it changes the storage. The model returns the set as a value and does not capture that aliasing.
- LegacyPlan.NewPlan: the source keeps `Collections.unmodifiableList` over the caller's list, a view through which later changes to that list show in the plan's body. The model stores the body as a value and does not capture that aliasing.
- LegacyBeliefStorage: `iteratorSingleElement`, `update` and `toString` are not modelled. The iterator over a Java set is an order chosen once per set.
- LegacyPlan.GetTrigger: it returns the stored event and has no contract of its own. `NewPlanEvaluatesBody` states what it returns.
- The fuzzy values of the newer generation are reduced to the boolean their defuzzification gives.
- Floating point: routing positions are real numbers, so IEEE rounding of the direction function is not modelled.

## Findings

| source | as written | input that shows it | evidently intended | confidence | as-written member | corrected member |
|---|---|---|---|---|---|---|
| src/main/java/lightjason/beliefbase/CBeliefStorage.java:148-155 | `sizeMultiElement` sums the set sizes and then returns 0 | one multi element, `{"k": {7}}` | the summed sizes, 1 | high, not executed | LegacyBeliefStorage.SizeCounterexample | LegacyBeliefStorage.BeliefStorage.SizeMultiElementIntended |
| src/main/java/lightjason/beliefbase/CBeliefStorage.java:157-161 | `sizeSingleElement` returns the size of the multi-element map | one multi element, `{"k": {7}}`, and no single element | the number of single entries, 0 | high, not executed | LegacyBeliefStorage.SizeCounterexample | LegacyBeliefStorage.BeliefStorage.SizeSingleElementIntended |

Further behaviour the model follows as written, without calling it a defect:
- `CVariable.deepcopy` appends a prefix after the functor, where `shallowcopy` puts it in front.
- `CMultiAssignment` with no left-hand variable and a non-empty result fails on `get(-1)`.
- `flatList` keeps a collection that is wrapped twice, as in `NestedTermKeepsCollection`.
- `flatList` casts every collection it meets to `List`, so a set among the terms throws `ClassCastException` (`OtherCollectionThrows`).
- `CRawTerm.throwNotAllocated()` called without names on a term without value fails on `p_name[0]` of the empty array, before its `CIllegalStateException` is built (`ThrowNotAllocated`).
- The default walkable test succeeds on cells that hold an object (non-null).
