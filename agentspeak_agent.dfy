/** The agent of the `org.lightjason.agentspeak` generation (`IBaseAgent`): its sleep counter
    and wake terms, the triggers pending for the next cycle, its plan registry with the
    success and failure counters of every plan, and the plans running in the current cycle.
    One reasoning cycle (`call`) decides whether the agent is active, drains the pending
    triggers into an execution list and runs it. */
module AgentCycle {

  import opened Wrappers
  import opened AgentCycleModel

  /** A set with elements has one to pick. */
  lemma HasKey<T>(s: set<T>)
    ensures |s| > 0 ==> exists x :: x in s
  {
    if forall x :: x !in s {
      assert forall x :: x in s <==> x in {};
      assert s == {};
    }
  }

  /** The same for a set of hash keys. The verifier does not carry the generic lemma's
      witness over to a `:|` at type `int`, so the existential is stated over `int`. */
  lemma HasIntKey(s: set<int>)
    ensures |s| > 0 ==> exists x: int :: x in s
  {
    if forall x: int :: x !in s {
      assert forall x :: x in s <==> x in {};
      assert s == {};
    }
  }

  /** Every key of `m` exactly once, in an order the model leaves open (the source streams
      the values of a concurrent hash map in parallel). */
  method ListKeys(m: map<int, Trigger>) returns (keys: seq<int>)
    ensures Listing(m, keys)
    ensures |keys| == |m.Keys|
  {
    keys := [];
    var rest := m.Keys;
    while |rest| > 0
      invariant rest <= m.Keys
      invariant forall j :: 0 <= j < |keys| ==> keys[j] in m && keys[j] !in rest
      invariant forall k :: k in m ==> k in keys || k in rest
      invariant forall j, l :: 0 <= j < l < |keys| ==> keys[j] != keys[l]
      invariant |keys| + |rest| == |m.Keys|
      decreases |rest|
    {
      HasIntKey(rest);
      var k :| k in rest;
      keys := keys + [k];
      rest := rest - {k};
    }
    ListingSize(m, keys);
  }

  /** The loop of `active` that puts the wake-up goal of every wake term (or the bare one)
      into the pending map under its structure hash. */
  method PutWakeups(before: map<int, Trigger>, terms: set<Term>, env: Env) returns (m: map<int, Trigger>)
    ensures WakeupsQueued(before, m, terms, env)
  {
    m := before;
    var todo := WakeTerms(terms);
    ghost var done: set<Option<Term>> := {};
    while |todo| > 0
      invariant todo + done == WakeTerms(terms) && todo !! done
      invariant Queued(before, m, done, env)
      decreases |todo|
    {
      HasKey(todo);
      var o :| o in todo;
      QueuedPut(before, m, done, o, env);
      var t := WakeupTrigger(o);
      m := m[env.structureHash(t) := t];
      done := done + {o};
      todo := todo - {o};
    }
  }

  /** A listing is as long as the key set. */
  lemma ListingSize(m: map<int, Trigger>, keys: seq<int>)
    requires Listing(m, keys)
    ensures |keys| == |m.Keys|
  {
    var s := set j | 0 <= j < |keys| :: keys[j];
    forall k | k in m.Keys
      ensures k in s
    {
      var j :| 0 <= j < |keys| && keys[j] == k;
    }
    assert s == m.Keys;
    DistinctCard(keys);
  }

  lemma {:induction false} DistinctCard(keys: seq<int>)
    requires forall j, l :: 0 <= j < l < |keys| ==> keys[j] != keys[l]
    ensures |set j | 0 <= j < |keys| :: keys[j]| == |keys|
  {
    if keys != [] {
      var init := keys[..|keys| - 1];
      DistinctCard(init);
      var s := set j | 0 <= j < |init| :: init[j];
      assert (set j | 0 <= j < |keys| :: keys[j]) == s + {keys[|keys| - 1]};
      assert keys[|keys| - 1] !in s;
    }
  }

  class Agent {
    /** The collaborators: hashes, unifier, plan conditions and plan bodies. */
    const env: Env
    /** `m_plans`, with the plans sorted by rank. */
    const registry: seq<Plan>
    /** `m_sleepingcycles`: positive while asleep, `LongMax` for ever, negative when awake. */
    var sleepingCycles: int
    /** `m_sleepingterm`. */
    var sleepingTerms: set<Term>
    /** `m_trigger`: the triggers pending for the next cycle, by hash. */
    var pending: map<int, Trigger>
    /** `m_runningplans`. */
    var runningPlans: map<Path, set<Literal>>
    /** The successful and failed runs of `registry[i]`. */
    var successes: seq<nat>
    var failures: seq<nat>
    /** `m_cycletime`: the time of the last completed cycle. */
    var cycleTime: int

    ghost predicate Valid()
      reads this
    {
      IsLong(sleepingCycles) && |successes| == |registry| && |failures| == |registry| &&
      SortedByRank(registry) && Distinct(registry, env.structureHash)
    }

    /** The agent is asleep exactly while its counter is positive. */
    predicate Sleeping(): (r: bool)
      reads this
      ensures r <==> sleepingCycles > 0
      ensures sleepingCycles == LongMin || sleepingCycles == 0 ==> !r
      ensures sleepingCycles == LongMax ==> r
    {
      sleepingCycles > 0
    }

    /** The construction: every configured plan registered with zero runs, the initial goal
        (if any) pending under its hash, and the agent awake. */
    constructor (env: Env, plans: seq<Plan>, initialGoal: Option<Trigger>)
      ensures Valid() && !Sleeping()
      ensures this.env == env && registry == BuildRegistry(plans, env.structureHash)
      ensures sleepingCycles == LongMin && sleepingTerms == {} && runningPlans == map[] && cycleTime == 0
      ensures pending == if initialGoal.Some? then map[env.hash(initialGoal.value) := initialGoal.value] else map[]
      ensures forall i :: 0 <= i < |registry| ==> successes[i] == 0 && failures[i] == 0
    {
      this.env := env;
      var reg := BuildRegistry(plans, env.structureHash);
      registry := reg;
      sleepingCycles := LongMin;
      sleepingTerms := {};
      pending := if initialGoal.Some? then map[env.hash(initialGoal.value) := initialGoal.value] else map[];
      runningPlans := map[];
      successes := seq(|reg|, _ => 0);
      failures := seq(|reg|, _ => 0);
      cycleTime := 0;
    }

    /** `sleep`: the counter is set to `cycles`, and the terms without variables are kept
        as wake terms. */
    method Sleep(cycles: int, terms: seq<Term>)
      requires Valid() && IsLong(cycles)
      modifies this
      ensures Valid()
      ensures sleepingCycles == cycles
      ensures sleepingTerms == old(sleepingTerms) + set t | t in terms && !HasVariable(t)
      ensures pending == old(pending) && runningPlans == old(runningPlans) && cycleTime == old(cycleTime)
      ensures successes == old(successes) && failures == old(failures)
    {
      sleepingCycles := cycles;
      sleepingTerms := sleepingTerms + set t | t in terms && !HasVariable(t);
    }

    /** Puts the wake-up goal of every stored wake term, or the bare one, under its structure
        hash (`m_trigger.put`), overwriting what is there. */
    method QueueWakeups()
      requires Valid()
      modifies this
      ensures Valid()
      ensures WakeupsQueued(old(pending), pending, old(sleepingTerms), env)
      ensures sleepingCycles == old(sleepingCycles) && sleepingTerms == old(sleepingTerms)
      ensures runningPlans == old(runningPlans) && cycleTime == old(cycleTime)
      ensures successes == old(successes) && failures == old(failures)
    {
      pending := PutWakeups(pending, sleepingTerms, env);
    }

    /** `active`: a counter found at 0 is reset to the awake sentinel; then, or when asked
        to wake immediately, the wake-up goals are queued and the wake terms cleared; a
        positive finite counter counts down; the agent is active when the counter is not
        positive. */
    method Active(immediately: bool) returns (r: bool)
      requires Valid()
      modifies this
      ensures Valid()
      ensures var a := ActiveStep(old(sleepingCycles), immediately);
        sleepingCycles == a.counter && r == a.active &&
        (a.fired ==> WakeupsQueued(old(pending), pending, old(sleepingTerms), env) && sleepingTerms == {}) &&
        (!a.fired ==> pending == old(pending) && sleepingTerms == old(sleepingTerms))
      ensures runningPlans == old(runningPlans) && cycleTime == old(cycleTime)
      ensures successes == old(successes) && failures == old(failures)
    {
      var reset := false;
      if sleepingCycles == 0 {
        sleepingCycles := LongMin;
        reset := true;
      }
      if reset || immediately {
        QueueWakeups();
        sleepingTerms := {};
      }
      if sleepingCycles > 0 && sleepingCycles != LongMax {
        sleepingCycles := sleepingCycles - 1;
      }
      r := sleepingCycles <= 0;
    }

    /** `wakeup`: the terms (variables included) join the wake terms, and `active(true)`
        queues their wake-up goals at once. */
    method Wakeup(terms: seq<Term>)
      requires Valid()
      modifies this
      ensures Valid()
      ensures sleepingCycles == ActiveStep(old(sleepingCycles), true).counter
      ensures WakeupsQueued(old(pending), pending, old(sleepingTerms) + (set t | t in terms), env)
      ensures sleepingTerms == {}
      ensures runningPlans == old(runningPlans) && cycleTime == old(cycleTime)
      ensures successes == old(successes) && failures == old(failures)
    {
      sleepingTerms := sleepingTerms + set t | t in terms;
      var _ := Active(true);
    }

    /** The state after running `exec` from the bookkeeping `b0` and the running-plans
        index `running`, and the result `r` of that run. */
    ghost predicate ExecutedFrom(b0: Book, running: map<Path, set<Literal>>, sleeping: bool,
                                 exec: seq<(nat, Context)>, r: Result<seq<bool>>)
      reads this
      requires forall j :: 0 <= j < |exec| ==> exec[j].0 < |registry|
      requires |b0.successes| == |registry| && |b0.failures| == |registry|
    {
      var b := Run(b0, registry, env, sleeping, exec);
      runningPlans == Running(running, registry, exec) &&
      successes == b.successes && failures == b.failures && pending == b.pending &&
      r == (if b.failed then Err(NoSuchElement("literalvariable")) else Ok(b.results))
    }

    /** `trigger`: a sleeping agent refuses with a failure; a literal with variables is an
        error; an immediate trigger runs its plans at once; otherwise the trigger is queued
        for the next cycle unless a trigger with the same hash is pending. */
    method Trigger(t: Trigger, immediately: bool) returns (r: Result<seq<bool>>)
      requires Valid()
      modifies this
      decreases if immediately then 4 else 0
      ensures Valid()
      ensures sleepingCycles == old(sleepingCycles) && sleepingTerms == old(sleepingTerms) && cycleTime == old(cycleTime)
      ensures old(Sleeping()) ==> r == Ok([false]) && unchanged(this)
      ensures !old(Sleeping()) && LiteralHasVariable(t.literal) ==>
        r == Err(NoSuchElement("literalvariable")) && unchanged(this)
      ensures !old(Sleeping()) && !LiteralHasVariable(t.literal) && !immediately ==>
        r == Ok([true]) && pending == PutIfAbsent(old(pending), env.hash(t), t) &&
        runningPlans == old(runningPlans) && successes == old(successes) && failures == old(failures)
      ensures !old(Sleeping()) && !LiteralHasVariable(t.literal) && immediately ==>
        ExecutedFrom(Book(old(successes), old(failures), old(pending), [], false), old(runningPlans), false,
                     GenerateExecution(registry, env, [t]), r)
    {
      if sleepingCycles > 0 {
        return Ok([false]);
      }
      if LiteralHasVariable(t.literal) {
        return Err(NoSuchElement("literalvariable"));
      }
      if immediately {
        r := Execute(GenerateExecution(registry, env, [t]));
        return;
      }
      pending := PutIfAbsent(pending, env.hash(t), t);
      r := Ok([true]);
    }

    /** The first half of `execute`: every pair's allocated trigger literal is indexed as
        running under the trigger's functor. */
    method IndexRunning(exec: seq<(nat, Context)>)
      requires Valid() && forall j :: 0 <= j < |exec| ==> exec[j].0 < |registry|
      modifies this
      ensures Valid()
      ensures runningPlans == Running(old(runningPlans), registry, exec)
      ensures runningPlans.Keys == old(runningPlans).Keys + FunctorsOf(registry, exec)
      ensures forall key :: key in runningPlans ==>
        runningPlans[key] == (if key in old(runningPlans) then old(runningPlans)[key] else {}) + IndexedUnder(registry, exec, key)
      ensures sleepingCycles == old(sleepingCycles) && sleepingTerms == old(sleepingTerms) && cycleTime == old(cycleTime)
      ensures successes == old(successes) && failures == old(failures) && pending == old(pending)
    {
      var i := 0;
      while i < |exec|
        invariant 0 <= i <= |exec| && Valid()
        invariant runningPlans == Running(old(runningPlans), registry, exec[..i])
        invariant sleepingCycles == old(sleepingCycles) && sleepingTerms == old(sleepingTerms) && cycleTime == old(cycleTime)
        invariant successes == old(successes) && failures == old(failures) && pending == old(pending)
      {
        var p := registry[exec[i].0].trigger.literal;
        assert exec[..i + 1][..i] == exec[..i];
        runningPlans := AddRunning(runningPlans, p.functor, AllocateLiteral(p, exec[i].1));
        i := i + 1;
      }
      assert exec[..i] == exec;
      RunningExact(old(runningPlans), registry, exec);
    }

    /** One pair of `execute`: the plan's body runs; success counts a success, failure
        counts a failure and sends the delete goal through `trigger`, whose refusal is
        reported. */
    method RunPair(pair: (nat, Context), results: seq<bool>) returns (after: seq<bool>, refused: bool)
      requires Valid() && pair.0 < |registry|
      modifies this
      decreases 1
      ensures Valid()
      ensures sleepingCycles == old(sleepingCycles) && sleepingTerms == old(sleepingTerms) && cycleTime == old(cycleTime)
      ensures runningPlans == old(runningPlans)
      ensures Book(successes, failures, pending, after, refused) ==
        Step(Book(old(successes), old(failures), old(pending), results, false), registry, env, old(Sleeping()), pair)
    {
      var plan := registry[pair.0];
      if env.succeeds(plan, pair.1) {
        successes := Increment(successes, pair.0);
        after, refused := results + [true], false;
      } else {
        failures := Increment(failures, pair.0);
        after := results + [false];
        var offered := Trigger(DeleteGoalOf(plan, pair.1), false);
        refused := offered.Err?;
      }
    }

    /** The second half of `execute`: the pairs run in order until a delete goal is
        refused; `n` pairs ran. */
    method RunList(exec: seq<(nat, Context)>) returns (results: seq<bool>, failed: bool, ghost n: nat)
      requires Valid() && forall j :: 0 <= j < |exec| ==> exec[j].0 < |registry|
      modifies this
      decreases 2
      ensures Valid()
      ensures sleepingCycles == old(sleepingCycles) && sleepingTerms == old(sleepingTerms) && cycleTime == old(cycleTime)
      ensures runningPlans == old(runningPlans)
      ensures n <= |exec| && (!failed ==> n == |exec|)
      ensures Book(successes, failures, pending, results, failed) ==
        Run(Book(old(successes), old(failures), old(pending), [], false), registry, env, old(Sleeping()), exec[..n])
    {
      ghost var b0 := Book(successes, failures, pending, [], false);
      ghost var sleeping := Sleeping();
      results, failed := [], false;
      var i := 0;
      while i < |exec| && !failed
        invariant 0 <= i <= |exec| && Valid()
        invariant Book(successes, failures, pending, results, failed) == Run(b0, registry, env, sleeping, exec[..i])
        invariant runningPlans == old(runningPlans)
        invariant sleepingCycles == old(sleepingCycles) && sleepingTerms == old(sleepingTerms) && cycleTime == old(cycleTime)
      {
        RunSnoc(b0, registry, env, sleeping, exec, i);
        results, failed := RunPair(exec[i], results);
        i := i + 1;
      }
      n := i;
    }

    /** `execute`: first every pair is indexed as running, then the pairs run in order; a
        refused delete goal ends the run with its error. */
    method Execute(exec: seq<(nat, Context)>) returns (r: Result<seq<bool>>)
      requires Valid() && forall j :: 0 <= j < |exec| ==> exec[j].0 < |registry|
      modifies this
      decreases 3
      ensures Valid()
      ensures sleepingCycles == old(sleepingCycles) && sleepingTerms == old(sleepingTerms) && cycleTime == old(cycleTime)
      ensures ExecutedFrom(Book(old(successes), old(failures), old(pending), [], false), old(runningPlans),
                           old(Sleeping()), exec, r)
    {
      IndexRunning(exec);
      ghost var b0 := Book(successes, failures, pending, [], false);
      ghost var sleeping := Sleeping();
      var results, failed, n := RunList(exec);
      if failed {
        RunAfterRefusal(b0, registry, env, sleeping, exec, n);
        r := Err(NoSuchElement("literalvariable"));
      } else {
        assert exec[..n] == exec;
        r := Ok(results);
      }
    }

    /** `generateexecutionlist`: the running plans are cleared, the pending triggers
        (in some order) followed by the belief base's triggers are turned into the
        execution list, and the pending triggers are cleared. */
    method GenerateExecutionList(beliefTriggers: seq<Trigger>) returns (exec: seq<(nat, Context)>, keys: seq<int>)
      requires Valid()
      modifies this
      ensures Valid()
      ensures Listing(old(pending), keys)
      ensures exec == GenerateExecution(registry, env, ValuesInOrder(old(pending), keys) + beliefTriggers)
      ensures pending == map[] && runningPlans == map[]
      ensures sleepingCycles == old(sleepingCycles) && sleepingTerms == old(sleepingTerms) && cycleTime == old(cycleTime)
      ensures successes == old(successes) && failures == old(failures)
    {
      runningPlans := map[];
      keys := ListKeys(pending);
      exec := GenerateExecution(registry, env, ValuesInOrder(pending, keys) + beliefTriggers);
      pending := map[];
    }

    /** `call`, one reasoning cycle: an inactive agent only counts down; an active one
        drains its pending triggers (wake-up goals included) and the belief base's triggers
        into an execution list, runs it, and records the cycle time `now`. */
    method Call(beliefTriggers: seq<Trigger>, now: int)
      returns (r: Result<bool>, ghost queued: map<int, Trigger>, ghost keys: seq<int>, ghost exec: seq<(nat, Context)>,
               ghost res: Result<seq<bool>>)
      requires Valid()
      modifies this
      ensures Valid()
      ensures var a := ActiveStep(old(sleepingCycles), false);
        sleepingCycles == a.counter &&
        (!a.active ==> (r == Ok(false) && pending == old(pending) && sleepingTerms == old(sleepingTerms) &&
          runningPlans == old(runningPlans) && successes == old(successes) && failures == old(failures) &&
          cycleTime == old(cycleTime)))
      ensures var a := ActiveStep(old(sleepingCycles), false);
        a.active ==>
          (if a.fired then WakeupsQueued(old(pending), queued, old(sleepingTerms), env) && sleepingTerms == {}
           else queued == old(pending) && sleepingTerms == old(sleepingTerms)) &&
          Listing(queued, keys) &&
          exec == GenerateExecution(registry, env, ValuesInOrder(queued, keys) + beliefTriggers) &&
          ExecutedFrom(Book(old(successes), old(failures), map[], [], false), map[], false, exec, res) &&
          r == (if res.Err? then Err(res.error) else Ok(true)) &&
          cycleTime == (if res.Err? then old(cycleTime) else now)
    {
      var active := Active(false);
      queued := pending;
      if !active {
        return Ok(false), queued, [], [], Ok([]);
      }
      var list, order := GenerateExecutionList(beliefTriggers);
      keys, exec := order, list;
      var ran := Execute(list);
      res := ran;
      if ran.Err? {
        return Err(ran.error), queued, keys, exec, res;
      }
      cycleTime := now;
      r := Ok(true);
    }
  }
}
