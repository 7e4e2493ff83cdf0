/** The values and the step functions of the agent reasoning cycle (`IBaseAgent`): the sleep
    counter, the plan registry, the execution list a cycle builds and the bookkeeping of
    running it. The agent class in `AgentCycle` is proved against these functions. */
module AgentCycleModel {

  import opened Wrappers

  type Path = seq<string>

  /** The range of a Java `long`, and its two sentinels: `Long.MIN_VALUE` marks an awake
      agent, `Long.MAX_VALUE` an agent asleep for ever. */
  const LongMin: int := -0x8000_0000_0000_0000
  const LongMax: int := 0x7FFF_FFFF_FFFF_FFFF

  predicate IsLong(x: int)
  {
    LongMin <= x <= LongMax
  }

  /** A term of a literal: a value, a variable or a compound term. */
  datatype Term = Value(text: string) | Variable(name: string) | Compound(functor: string, args: seq<Term>)

  /** `hasVariable`. */
  predicate HasVariable(t: Term)
  {
    match t
    case Value(_) => false
    case Variable(_) => true
    case Compound(_, args) => exists i :: 0 <= i < |args| && HasVariable(args[i])
  }

  /** A literal: its fully qualified functor and its arguments. */
  datatype Literal = Literal(functor: Path, args: seq<Term>)

  predicate LiteralHasVariable(l: Literal)
  {
    exists i :: 0 <= i < |l.args| && HasVariable(l.args[i])
  }

  /** The variable bindings of an instantiated plan's execution context. */
  type Context = map<string, Term>

  /** `allocate`: every bound variable is replaced by its value. */
  function Allocate(t: Term, ctx: Context): Term
  {
    match t
    case Value(_) => t
    case Variable(n) => if n in ctx then ctx[n] else t
    case Compound(f, args) => Compound(f, seq(|args|, i requires 0 <= i < |args| => Allocate(args[i], ctx)))
  }

  function AllocateLiteral(l: Literal, ctx: Context): Literal
  {
    Literal(l.functor, seq(|l.args|, i requires 0 <= i < |l.args| => Allocate(l.args[i], ctx)))
  }

  datatype TriggerType = AddGoal | DeleteGoal | AddBelief | DeleteBelief

  datatype Trigger = Trigger(kind: TriggerType, literal: Literal)

  /** The goal `+!wakeup` or `+!wakeup(t)` queued when an agent wakes up. */
  function WakeupTrigger(term: Option<Term>): Trigger
  {
    Trigger(AddGoal, Literal(["wakeup"], if term.Some? then [term.value] else []))
  }

  /** The goal `-!literal` a failed plan sends to its agent. */
  function DeleteGoalOf(p: Plan, ctx: Context): Trigger
  {
    Trigger(DeleteGoal, AllocateLiteral(p.literal, ctx))
  }

  /** A plan: its trigger, its head literal and its place in the natural order of plan
      statistics, which decides the order of plans sharing a trigger. */
  datatype Plan = Plan(trigger: Trigger, literal: Literal, rank: int)

  /** The collaborators the cycle calls but does not define: `hashCode` and `structurehash`
      of triggers, trigger unification with the instantiated plan context, the plan
      condition, and whether a plan body's defuzzified result counts as success. */
  datatype Env = Env(
    hash: Trigger -> int,
    structureHash: Trigger -> int,
    unify: (Trigger, Trigger) -> Option<Context>,
    condition: (Plan, Context) -> bool,
    succeeds: (Plan, Context) -> bool)

  // ---------------------------------------------------------------------------------------
  // The sleep counter

  /** One call of `active(immediately)` on the counter `c`: the new counter, whether wake-up
      goals are queued, and whether the agent is active. */
  datatype Activity = Activity(counter: int, fired: bool, active: bool)

  function ActiveStep(c: int, immediately: bool): (r: Activity)
    requires IsLong(c)
    ensures IsLong(r.counter)
    ensures r.fired <==> c == 0 || immediately
    ensures c == 0 ==> r.counter == LongMin
    ensures c > 0 && c != LongMax ==> r.counter == c - 1
    ensures c < 0 || c == LongMax ==> r.counter == c
    ensures r.active <==> r.counter <= 0
  {
    var reset := if c == 0 then LongMin else c;
    var next := if reset > 0 && reset != LongMax then reset - 1 else reset;
    Activity(next, c == 0 || immediately, next <= 0)
  }

  /** A counter of 1 lets the agent run plans at once; the wake-up goal only comes with
      the cycle after, when the counter is found at 0. */
  lemma WakeupComesOneCycleLate()
    ensures var first := ActiveStep(1, false);
      first == Activity(0, false, true) &&
      ActiveStep(first.counter, false) == Activity(LongMin, true, true)
  {
  }

  /** `wakeup` on an agent asleep for more than one more cycle queues the wake-up goals but
      leaves it asleep, one cycle shorter; an agent asleep for ever stays asleep. */
  lemma WakeupKeepsLongSleep(c: int)
    requires IsLong(c) && c > 1
    ensures var r := ActiveStep(c, true);
      r.fired && !r.active && (r.counter == if c == LongMax then c else c - 1)
  {
  }

  /** The counter after `n` cycles of `active(false)`. */
  function Ticks(c: int, n: nat): (r: int)
    requires IsLong(c)
    ensures IsLong(r)
  {
    if n == 0 then c else ActiveStep(Ticks(c, n - 1), false).counter
  }

  /** A positive finite counter `c` makes the agent sleep exactly `c` cycles. */
  lemma {:induction false} SleepLastsItsCycles(c: int, n: nat)
    requires 0 < c < LongMax && n <= c
    ensures Ticks(c, n) == c - n
    ensures Ticks(c, n) <= 0 <==> n == c
  {
    if n > 0 {
      SleepLastsItsCycles(c, n - 1);
    }
  }

  /** The wake-up goals for the stored wake terms, or the bare one when there are none. */
  function WakeTerms(terms: set<Term>): (r: set<Option<Term>>)
    ensures terms == {} ==> r == {None}
    ensures terms != {} ==> forall o :: o in r <==> o.Some? && o.value in terms
  {
    if terms == {} then {None} else set t | t in terms :: Some(t)
  }

  /** The structure hashes the wake-up goals `wakes` are put under. */
  ghost function WakeKeys(wakes: set<Option<Term>>, env: Env): set<int>
  {
    set o | o in wakes :: env.structureHash(WakeupTrigger(o))
  }

  /** `after` is `before` with the wake-up goal of every element of `wakes` put under its
      structure hash; goals whose hashes collide overwrite each other in an order the model
      leaves open. */
  ghost predicate Queued(before: map<int, Trigger>, after: map<int, Trigger>, wakes: set<Option<Term>>, env: Env)
  {
    after.Keys == before.Keys + WakeKeys(wakes, env) &&
    (forall k :: k in after && k !in WakeKeys(wakes, env) ==> after[k] == before[k]) &&
    (forall k :: k in WakeKeys(wakes, env) ==>
      exists o :: o in wakes && after[k] == WakeupTrigger(o) && env.structureHash(WakeupTrigger(o)) == k)
  }

  ghost predicate WakeupsQueued(before: map<int, Trigger>, after: map<int, Trigger>, terms: set<Term>, env: Env)
  {
    Queued(before, after, WakeTerms(terms), env)
  }

  /** Putting one more wake-up goal keeps the description exact. */
  lemma QueuedPut(before: map<int, Trigger>, after: map<int, Trigger>, wakes: set<Option<Term>>, o: Option<Term>, env: Env)
    requires Queued(before, after, wakes, env)
    ensures var t := WakeupTrigger(o);
      Queued(before, after[env.structureHash(t) := t], wakes + {o}, env)
  {
    var t := WakeupTrigger(o);
    var k := env.structureHash(t);
    var next := after[k := t];
    assert WakeKeys(wakes + {o}, env) == WakeKeys(wakes, env) + {k};
    forall j | j in WakeKeys(wakes + {o}, env)
      ensures exists o' :: o' in wakes + {o} && next[j] == WakeupTrigger(o') && env.structureHash(WakeupTrigger(o')) == j
    {
      if j == k {
        assert next[j] == WakeupTrigger(o);
      } else {
        var o' :| o' in wakes && after[j] == WakeupTrigger(o') && env.structureHash(WakeupTrigger(o')) == j;
        assert next[j] == WakeupTrigger(o');
      }
    }
  }

  // ---------------------------------------------------------------------------------------
  // The plan registry: a multimap from trigger (compared by structure hash) to a sorted set
  // of plan statistics (compared by rank)

  predicate SortedByRank(reg: seq<Plan>)
  {
    forall i, j :: 0 <= i < j < |reg| ==> reg[i].rank <= reg[j].rank
  }

  /** No two entries share both the trigger key and the rank: the sorted value set keeps
      only one of them. */
  predicate Distinct(reg: seq<Plan>, sh: Trigger -> int)
  {
    forall i, j :: 0 <= i < j < |reg| ==>
      sh(reg[i].trigger) != sh(reg[j].trigger) || reg[i].rank != reg[j].rank
  }

  predicate Registered(reg: seq<Plan>, p: Plan, sh: Trigger -> int)
  {
    exists j :: 0 <= j < |reg| && sh(reg[j].trigger) == sh(p.trigger) && reg[j].rank == p.rank
  }

  /** Where the sorted value set places `p`: after the plans of a lower rank. */
  function InsertPoint(reg: seq<Plan>, p: Plan): (k: nat)
    ensures k <= |reg|
    ensures forall j :: 0 <= j < k ==> reg[j].rank < p.rank
    ensures k < |reg| ==> p.rank <= reg[k].rank
  {
    if reg == [] || p.rank <= reg[0].rank then 0 else 1 + InsertPoint(reg[1..], p)
  }

  /** The registry with `p` inserted at its place: entries before it are kept, entries
      after it move up by one. */
  function InsertSorted(reg: seq<Plan>, p: Plan): (r: seq<Plan>)
    ensures |r| == |reg| + 1
    ensures forall j :: 0 <= j < InsertPoint(reg, p) ==> r[j] == reg[j]
    ensures r[InsertPoint(reg, p)] == p
    ensures forall j :: InsertPoint(reg, p) < j < |r| ==> r[j] == reg[j - 1]
  {
    var k := InsertPoint(reg, p);
    reg[..k] + [p] + reg[k..]
  }

  /** Inserting into a registry sorted by rank keeps it sorted. */
  lemma InsertSortedKeepsOrder(reg: seq<Plan>, p: Plan)
    requires SortedByRank(reg)
    ensures SortedByRank(InsertSorted(reg, p))
  {
    var r := InsertSorted(reg, p);
    var k := InsertPoint(reg, p);
    forall i, j | 0 <= i < j < |r|
      ensures r[i].rank <= r[j].rank
    {
      var i' := if i < k then i else i - 1;
      var j' := if j < k then j else j - 1;
      if i == k {
        assert r[j] == reg[j'] && k <= j';
      } else if j == k {
        assert r[i] == reg[i'] && i' < k;
      } else {
        assert r[i] == reg[i'] && r[j] == reg[j'] && i' < j';
      }
    }
  }

  /** `put` into the multimap: a plan whose key and rank are already present is dropped. */
  function Insert(reg: seq<Plan>, p: Plan, sh: Trigger -> int): (r: seq<Plan>)
    requires SortedByRank(reg) && Distinct(reg, sh)
    ensures SortedByRank(r) && Distinct(r, sh)
    ensures Registered(r, p, sh)
    ensures forall q :: Registered(reg, q, sh) ==> Registered(r, q, sh)
    ensures forall j :: 0 <= j < |r| ==> r[j] == p || r[j] in reg
  {
    if Registered(reg, p, sh) then reg
    else
      InsertSortedKeepsOrder(reg, p);
      InsertFresh(reg, p, sh);
      InsertSorted(reg, p)
  }

  lemma InsertFresh(reg: seq<Plan>, p: Plan, sh: Trigger -> int)
    requires Distinct(reg, sh) && !Registered(reg, p, sh)
    ensures var r := InsertSorted(reg, p);
      Distinct(r, sh) && Registered(r, p, sh) &&
      (forall q :: Registered(reg, q, sh) ==> Registered(r, q, sh)) &&
      (forall j :: 0 <= j < |r| ==> r[j] == p || r[j] in reg)
  {
    var r := InsertSorted(reg, p);
    var k := InsertPoint(reg, p);
    forall i, j | 0 <= i < j < |r|
      ensures sh(r[i].trigger) != sh(r[j].trigger) || r[i].rank != r[j].rank
    {
      if i == k {
        assert r[j] == reg[j - 1];
      } else if j == k {
        assert r[i] == reg[i];
      } else {
        var i' := if i < k then i else i - 1;
        var j' := if j < k then j else j - 1;
        assert r[i] == reg[i'] && r[j] == reg[j'] && i' < j';
      }
    }
    forall q | Registered(reg, q, sh)
      ensures Registered(r, q, sh)
    {
      var j :| 0 <= j < |reg| && sh(reg[j].trigger) == sh(q.trigger) && reg[j].rank == q.rank;
      var j' := if j < k then j else j + 1;
      assert r[j'] == reg[j];
    }
    forall j | 0 <= j < |r|
      ensures r[j] == p || r[j] in reg
    {
      if j < k { assert r[j] == reg[j]; } else if j > k { assert r[j] == reg[j - 1]; }
    }
  }

  /** The registry the constructor builds from the configured plans. */
  function BuildRegistry(plans: seq<Plan>, sh: Trigger -> int): (r: seq<Plan>)
    ensures SortedByRank(r) && Distinct(r, sh)
    ensures forall j :: 0 <= j < |r| ==> r[j] in plans
  {
    if plans == [] then []
    else Insert(BuildRegistry(plans[..|plans| - 1], sh), plans[|plans| - 1], sh)
  }

  /** Every configured plan has its key and rank in the registry. */
  lemma {:induction false} BuildRegistryComplete(plans: seq<Plan>, sh: Trigger -> int)
    ensures forall i :: 0 <= i < |plans| ==> Registered(BuildRegistry(plans, sh), plans[i], sh)
  {
    if plans != [] {
      var init := plans[..|plans| - 1];
      BuildRegistryComplete(init, sh);
      forall i | 0 <= i < |plans|
        ensures Registered(BuildRegistry(plans, sh), plans[i], sh)
      {
        if i < |plans| - 1 {
          assert plans[i] == init[i];
        }
      }
    }
  }

  /** `m_plans.get(trigger)`: the indices of the plans whose trigger has the trigger's
      structure hash, from index `from` on, in registry order. */
  function PlansFrom(reg: seq<Plan>, key: int, sh: Trigger -> int, from: nat): (r: seq<nat>)
    requires from <= |reg|
    ensures forall j :: 0 <= j < |r| ==> from <= r[j] < |reg| && sh(reg[r[j]].trigger) == key
    ensures forall j, k :: 0 <= j < k < |r| ==> r[j] < r[k]
    ensures forall i :: from <= i < |reg| && sh(reg[i].trigger) == key ==> i in r
    decreases |reg| - from
  {
    if from == |reg| then []
    else if sh(reg[from].trigger) == key then [from] + PlansFrom(reg, key, sh, from + 1)
    else PlansFrom(reg, key, sh, from + 1)
  }

  function PlansFor(reg: seq<Plan>, t: Trigger, sh: Trigger -> int): seq<nat>
  {
    PlansFrom(reg, sh(t), sh, 0)
  }

  /** The plans for one trigger come in strictly increasing rank: the order of the sorted
      value set, not the order of insertion. */
  lemma PlansForOrdered(reg: seq<Plan>, t: Trigger, sh: Trigger -> int)
    requires SortedByRank(reg) && Distinct(reg, sh)
    ensures var ps := PlansFor(reg, t, sh);
      forall j, k :: 0 <= j < k < |ps| ==> reg[ps[j]].rank < reg[ps[k]].rank
  {
    var ps := PlansFor(reg, t, sh);
    forall j, k | 0 <= j < k < |ps|
      ensures reg[ps[j]].rank < reg[ps[k]].rank
    {
      assert ps[j] < ps[k];
      assert sh(reg[ps[j]].trigger) == sh(reg[ps[k]].trigger);
    }
  }

  // ---------------------------------------------------------------------------------------
  // Building the execution list

  /** Every pair of an execution list names a plan of the registry. */
  predicate NamesPlans(exec: seq<(nat, Context)>, reg: seq<Plan>)
  {
    forall j :: 0 <= j < |exec| ==> exec[j].0 < |reg|
  }

  /** The executable pairs one trigger contributes: every plan for it whose trigger unifies
      and whose condition holds in the instantiated context. */
  function Candidates(reg: seq<Plan>, env: Env, t: Trigger, ps: seq<nat>): (r: seq<(nat, Context)>)
    requires forall j :: 0 <= j < |ps| ==> ps[j] < |reg|
    ensures NamesPlans(r, reg)
  {
    if ps == [] then []
    else
      var i := ps[0];
      var rest := Candidates(reg, env, t, ps[1..]);
      match env.unify(t, reg[i].trigger)
      case None => rest
      case Some(ctx) => if env.condition(reg[i], ctx) then [(i, ctx)] + rest else rest
  }

  /** `generateexecution`: the pairs of all triggers, in trigger order, duplicates kept. */
  function GenerateExecution(reg: seq<Plan>, env: Env, ts: seq<Trigger>): (r: seq<(nat, Context)>)
    ensures NamesPlans(r, reg)
  {
    if ts == [] then []
    else Candidates(reg, env, ts[0], PlansFor(reg, ts[0], env.structureHash)) + GenerateExecution(reg, env, ts[1..])
  }

  /** The pair `(i, ctx)` is proposed for `t` exactly when plan `i` shares `t`'s structure
      hash, unifies with `t` into `ctx`, and its condition holds there. */
  predicate Executable(reg: seq<Plan>, env: Env, t: Trigger, i: nat, ctx: Context)
  {
    i < |reg| && env.structureHash(reg[i].trigger) == env.structureHash(t) &&
    env.unify(t, reg[i].trigger) == Some(ctx) && env.condition(reg[i], ctx)
  }

  lemma {:induction false} CandidatesExact(reg: seq<Plan>, env: Env, t: Trigger, ps: seq<nat>, i: nat, ctx: Context)
    requires forall j :: 0 <= j < |ps| ==> ps[j] < |reg|
    ensures (i, ctx) in Candidates(reg, env, t, ps) <==>
      i in ps && i < |reg| && env.unify(t, reg[i].trigger) == Some(ctx) && env.condition(reg[i], ctx)
  {
    if ps != [] {
      CandidatesExact(reg, env, t, ps[1..], i, ctx);
      assert i in ps <==> i == ps[0] || i in ps[1..];
    }
  }

  lemma {:induction false} GenerateExecutionExact(reg: seq<Plan>, env: Env, ts: seq<Trigger>, i: nat, ctx: Context)
    ensures (i, ctx) in GenerateExecution(reg, env, ts) <==>
      exists k :: 0 <= k < |ts| && Executable(reg, env, ts[k], i, ctx)
  {
    if ts != [] {
      GenerateExecutionExact(reg, env, ts[1..], i, ctx);
      var ps := PlansFor(reg, ts[0], env.structureHash);
      CandidatesExact(reg, env, ts[0], ps, i, ctx);
      if exists k :: 0 <= k < |ts| && Executable(reg, env, ts[k], i, ctx) {
        var k :| 0 <= k < |ts| && Executable(reg, env, ts[k], i, ctx);
        if k > 0 {
          assert ts[1..][k - 1] == ts[k];
        }
      }
      if exists k :: 0 <= k < |ts[1..]| && Executable(reg, env, ts[1..][k], i, ctx) {
        var k :| 0 <= k < |ts[1..]| && Executable(reg, env, ts[1..][k], i, ctx);
        assert ts[k + 1] == ts[1..][k];
      }
    }
  }

  /** The execution list is collected as a list: a trigger offered twice runs its plans
      twice. */
  lemma {:induction false} GenerateExecutionAppend(reg: seq<Plan>, env: Env, a: seq<Trigger>, b: seq<Trigger>)
    ensures GenerateExecution(reg, env, a + b) == GenerateExecution(reg, env, a) + GenerateExecution(reg, env, b)
  {
    if a == [] {
      assert a + b == b;
    } else {
      GenerateExecutionAppend(reg, env, a[1..], b);
      GenerateExecutionCons(reg, env, a);
      GenerateExecutionCons(reg, env, a + b);
      ConsAppend(a, b);
      ConcatAssoc(Candidates(reg, env, a[0], PlansFor(reg, a[0], env.structureHash)),
        GenerateExecution(reg, env, a[1..]), GenerateExecution(reg, env, b));
    }
  }

  lemma GenerateExecutionCons(reg: seq<Plan>, env: Env, ts: seq<Trigger>)
    requires ts != []
    ensures GenerateExecution(reg, env, ts) ==
      Candidates(reg, env, ts[0], PlansFor(reg, ts[0], env.structureHash)) + GenerateExecution(reg, env, ts[1..])
  {
  }

  lemma ConsAppend<T>(a: seq<T>, b: seq<T>)
    requires a != []
    ensures (a + b)[0] == a[0] && (a + b)[1..] == a[1..] + b
  {
  }

  lemma ConcatAssoc<T>(x: seq<T>, y: seq<T>, z: seq<T>)
    ensures x + (y + z) == (x + y) + z
  {
  }

  /** The values of a map in the order of a listing of its keys. */
  function ValuesInOrder(m: map<int, Trigger>, keys: seq<int>): (r: seq<Trigger>)
    requires forall j :: 0 <= j < |keys| ==> keys[j] in m
    ensures |r| == |keys| && forall j :: 0 <= j < |keys| ==> r[j] == m[keys[j]]
  {
    if keys == [] then [] else ValuesInOrder(m, keys[..|keys| - 1]) + [m[keys[|keys| - 1]]]
  }

  /** `keys` lists every key of `m` exactly once. */
  predicate Listing(m: map<int, Trigger>, keys: seq<int>)
  {
    (forall j :: 0 <= j < |keys| ==> keys[j] in m) &&
    (forall k :: k in m ==> k in keys) &&
    (forall j, l :: 0 <= j < l < |keys| ==> keys[j] != keys[l])
  }

  // ---------------------------------------------------------------------------------------
  // Running the execution list

  /** `putIfAbsent`. */
  function PutIfAbsent(m: map<int, Trigger>, k: int, t: Trigger): (r: map<int, Trigger>)
    ensures k in r && (k in m ==> r[k] == m[k]) && (k !in m ==> r[k] == t)
    ensures r.Keys == m.Keys + {k}
    ensures forall j :: j in m ==> j in r && r[j] == m[j]
  {
    if k in m then m else m[k := t]
  }

  /** The running-plans index: the plan's trigger functor mapped to its allocated trigger
      literals. */
  function AddRunning(m: map<Path, set<Literal>>, key: Path, l: Literal): map<Path, set<Literal>>
  {
    m[key := (if key in m then m[key] else {}) + {l}]
  }

  /** The trigger functors of the pairs of `exec`. */
  function FunctorsOf(reg: seq<Plan>, exec: seq<(nat, Context)>): set<Path>
    requires forall j :: 0 <= j < |exec| ==> exec[j].0 < |reg|
  {
    if exec == [] then {}
    else FunctorsOf(reg, exec[..|exec| - 1]) + {reg[exec[|exec| - 1].0].trigger.literal.functor}
  }

  /** The allocated trigger literals of the pairs of `exec` whose trigger functor is `key`. */
  function IndexedUnder(reg: seq<Plan>, exec: seq<(nat, Context)>, key: Path): set<Literal>
    requires forall j :: 0 <= j < |exec| ==> exec[j].0 < |reg|
  {
    if exec == [] then {}
    else
      var p := reg[exec[|exec| - 1].0].trigger.literal;
      IndexedUnder(reg, exec[..|exec| - 1], key) + (if p.functor == key then {AllocateLiteral(p, exec[|exec| - 1].1)} else {})
  }

  /** A key is one of the functors exactly when some pair of `exec` has it, and a literal
      is indexed under a key exactly when some pair of that functor allocates to it. */
  lemma {:induction false} IndexedByPairs(reg: seq<Plan>, exec: seq<(nat, Context)>, key: Path, l: Literal)
    requires forall j :: 0 <= j < |exec| ==> exec[j].0 < |reg|
    ensures key in FunctorsOf(reg, exec) <==>
      exists j :: 0 <= j < |exec| && reg[exec[j].0].trigger.literal.functor == key
    ensures l in IndexedUnder(reg, exec, key) <==>
      exists j :: 0 <= j < |exec| && reg[exec[j].0].trigger.literal.functor == key &&
                  l == AllocateLiteral(reg[exec[j].0].trigger.literal, exec[j].1)
  {
    if exec != [] {
      var init := exec[..|exec| - 1];
      var n := |exec| - 1;
      assert forall j :: 0 <= j < |init| ==> init[j] == exec[j];
      IndexedByPairs(reg, init, key, l);
      if key in FunctorsOf(reg, exec) && key !in FunctorsOf(reg, init) {
        assert reg[exec[n].0].trigger.literal.functor == key;
      }
      if l in IndexedUnder(reg, exec, key) && l !in IndexedUnder(reg, init, key) {
        assert reg[exec[n].0].trigger.literal.functor == key;
      }
      if exists j :: 0 <= j < |exec| && reg[exec[j].0].trigger.literal.functor == key {
        var j :| 0 <= j < |exec| && reg[exec[j].0].trigger.literal.functor == key;
        if j < n {
          assert reg[init[j].0].trigger.literal.functor == key;
        }
      }
      if exists j :: 0 <= j < |exec| && reg[exec[j].0].trigger.literal.functor == key &&
                     l == AllocateLiteral(reg[exec[j].0].trigger.literal, exec[j].1) {
        var j :| 0 <= j < |exec| && reg[exec[j].0].trigger.literal.functor == key &&
                 l == AllocateLiteral(reg[exec[j].0].trigger.literal, exec[j].1);
        if j < n {
          assert reg[init[j].0].trigger.literal.functor == key;
        }
      }
    }
  }

  /** The running-plans index after `exec`: what `m` held, and under each pair's trigger
      functor that pair's allocated trigger literal, and nothing else. */
  function Running(m: map<Path, set<Literal>>, reg: seq<Plan>, exec: seq<(nat, Context)>): (r: map<Path, set<Literal>>)
    requires forall j :: 0 <= j < |exec| ==> exec[j].0 < |reg|
    ensures forall j :: 0 <= j < |exec| ==>
      var p := reg[exec[j].0].trigger.literal;
      p.functor in r && AllocateLiteral(p, exec[j].1) in r[p.functor]
    ensures forall key :: key in m ==> key in r && m[key] <= r[key]
  {
    if exec == [] then m
    else
      var last := exec[|exec| - 1];
      var p := reg[last.0].trigger.literal;
      var before := Running(m, reg, exec[..|exec| - 1]);
      var r := AddRunning(before, p.functor, AllocateLiteral(p, last.1));
      assert forall j :: 0 <= j < |exec| - 1 ==> exec[j] == exec[..|exec| - 1][j];
      r
  }

  /** The running-plans index holds nothing but what `m` held and what the pairs of
      `exec` indexed: its keys are the old keys and the pairs' trigger functors, and
      under each key are the old literals and the allocated literals of that key. */
  lemma {:induction false} RunningExact(m: map<Path, set<Literal>>, reg: seq<Plan>, exec: seq<(nat, Context)>)
    requires forall j :: 0 <= j < |exec| ==> exec[j].0 < |reg|
    ensures Running(m, reg, exec).Keys == m.Keys + FunctorsOf(reg, exec)
    ensures forall key :: key in Running(m, reg, exec) ==>
      Running(m, reg, exec)[key] == (if key in m then m[key] else {}) + IndexedUnder(reg, exec, key)
  {
    if exec != [] {
      var init := exec[..|exec| - 1];
      var last := exec[|exec| - 1];
      var p := reg[last.0].trigger.literal;
      assert forall j :: 0 <= j < |init| ==> init[j] == exec[j];
      RunningExact(m, reg, init);
      var before := Running(m, reg, init);
      assert Running(m, reg, exec) == AddRunning(before, p.functor, AllocateLiteral(p, last.1));
      assert FunctorsOf(reg, exec) == FunctorsOf(reg, init) + {p.functor};
      forall key | key in Running(m, reg, exec)
        ensures Running(m, reg, exec)[key] == (if key in m then m[key] else {}) + IndexedUnder(reg, exec, key)
      {
        assert IndexedUnder(reg, exec, key) ==
          IndexedUnder(reg, init, key) + (if p.functor == key then {AllocateLiteral(p, last.1)} else {});
        if key !in before && IndexedUnder(reg, init, key) != {} {
          var l :| l in IndexedUnder(reg, init, key);
          IndexedByPairs(reg, init, key, l);
          assert false;
        }
      }
    }
  }

  /** The bookkeeping of one run: the per-plan counters, the pending triggers, the fuzzy
      results so far, and whether a delete goal was refused with an exception. */
  datatype Book = Book(successes: seq<nat>, failures: seq<nat>, pending: map<int, Trigger>, results: seq<bool>, failed: bool)

  function Increment(s: seq<nat>, i: nat): (r: seq<nat>)
    requires i < |s|
    ensures |r| == |s| && r[i] == s[i] + 1 && forall j :: 0 <= j < |s| && j != i ==> r[j] == s[j]
  {
    s[i := s[i] + 1]
  }

  /** One pair of the execution list: a successful body counts a success; a failed one
      counts a failure and offers `-!literal` to the agent's `trigger`, which drops it on a
      sleeping agent, refuses a literal with variables, and otherwise queues it. After a
      refusal nothing more runs. */
  function Step(b: Book, reg: seq<Plan>, env: Env, sleeping: bool, pair: (nat, Context)): (r: Book)
    requires pair.0 < |reg| && |b.successes| == |reg| && |b.failures| == |reg|
    ensures b.failed ==> r == b
    ensures !b.failed ==> r.results == b.results + [env.succeeds(reg[pair.0], pair.1)]
    ensures !b.failed && env.succeeds(reg[pair.0], pair.1) ==>
      r.successes == Increment(b.successes, pair.0) && r.failures == b.failures
    ensures !b.failed && !env.succeeds(reg[pair.0], pair.1) ==>
      r.failures == Increment(b.failures, pair.0) && r.successes == b.successes
  {
    if b.failed then b
    else
      var p := reg[pair.0];
      if env.succeeds(p, pair.1) then
        b.(successes := Increment(b.successes, pair.0), results := b.results + [true])
      else
        var goal := DeleteGoalOf(p, pair.1);
        var counted := b.(failures := Increment(b.failures, pair.0), results := b.results + [false]);
        if sleeping then counted
        else if LiteralHasVariable(goal.literal) then counted.(failed := true)
        else counted.(pending := PutIfAbsent(counted.pending, env.hash(goal), goal))
  }

  function Run(b: Book, reg: seq<Plan>, env: Env, sleeping: bool, exec: seq<(nat, Context)>): (r: Book)
    requires forall j :: 0 <= j < |exec| ==> exec[j].0 < |reg|
    requires |b.successes| == |reg| && |b.failures| == |reg|
    ensures |r.successes| == |reg| && |r.failures| == |reg|
  {
    if exec == [] then b
    else Step(Run(b, reg, env, sleeping, exec[..|exec| - 1]), reg, env, sleeping, exec[|exec| - 1])
  }

  /** What one step does to the counters: one more success of the pair's plan when its
      body succeeds, one more failure of it otherwise, no other counter moves, and a
      refusal exactly when the awake agent's delete goal has a variable. */
  lemma StepShape(b: Book, reg: seq<Plan>, env: Env, sleeping: bool, pair: (nat, Context))
    requires pair.0 < |reg| && |b.successes| == |reg| && |b.failures| == |reg|
    ensures var s := Step(b, reg, env, sleeping, pair);
      var p := reg[pair.0];
      (!b.failed ==>
        (forall i :: 0 <= i < |reg| ==>
          s.successes[i] == b.successes[i] + (if i == pair.0 && env.succeeds(p, pair.1) then 1 else 0) &&
          s.failures[i] == b.failures[i] + (if i == pair.0 && !env.succeeds(p, pair.1) then 1 else 0)) &&
        (s.failed <==> !env.succeeds(p, pair.1) && !sleeping && LiteralHasVariable(DeleteGoalOf(p, pair.1).literal)))
  {
  }

  /** Running one more pair of the list is one more step. */
  lemma RunSnoc(b0: Book, reg: seq<Plan>, env: Env, sleeping: bool, exec: seq<(nat, Context)>, i: nat)
    requires forall j :: 0 <= j < |exec| ==> exec[j].0 < |reg|
    requires |b0.successes| == |reg| && |b0.failures| == |reg| && i < |exec|
    ensures Run(b0, reg, env, sleeping, exec[..i + 1]) ==
      Step(Run(b0, reg, env, sleeping, exec[..i]), reg, env, sleeping, exec[i])
  {
    assert exec[..i + 1][..i] == exec[..i];
  }

  /** Once a delete goal was refused, the rest of the list does not run. */
  lemma {:induction false} RunAfterRefusal(b: Book, reg: seq<Plan>, env: Env, sleeping: bool, exec: seq<(nat, Context)>, n: nat)
    requires forall j :: 0 <= j < |exec| ==> exec[j].0 < |reg|
    requires |b.successes| == |reg| && |b.failures| == |reg|
    requires n <= |exec| && Run(b, reg, env, sleeping, exec[..n]).failed
    ensures Run(b, reg, env, sleeping, exec) == Run(b, reg, env, sleeping, exec[..n])
    decreases |exec| - n
  {
    if n < |exec| {
      assert exec[..n + 1][..n] == exec[..n];
      RunAfterRefusal(b, reg, env, sleeping, exec, n + 1);
    } else {
      assert exec[..n] == exec;
    }
  }

  /** How many pairs of `exec` run plan `i`. */
  function Occurrences(exec: seq<(nat, Context)>, i: nat): nat
  {
    if exec == [] then 0
    else Occurrences(exec[..|exec| - 1], i) + (if exec[|exec| - 1].0 == i then 1 else 0)
  }

  /** How many pairs of `exec` run plan `i`, which is `p`, and succeed. */
  function SuccessesOf(exec: seq<(nat, Context)>, i: nat, p: Plan, env: Env): nat
  {
    if exec == [] then 0
    else
      var last := exec[|exec| - 1];
      SuccessesOf(exec[..|exec| - 1], i, p, env) + (if last.0 == i && env.succeeds(p, last.1) then 1 else 0)
  }

  /** How many pairs of `exec` run plan `i`, which is `p`, and fail. */
  function FailuresOf(exec: seq<(nat, Context)>, i: nat, p: Plan, env: Env): nat
  {
    if exec == [] then 0
    else
      var last := exec[|exec| - 1];
      FailuresOf(exec[..|exec| - 1], i, p, env) + (if last.0 == i && !env.succeeds(p, last.1) then 1 else 0)
  }

  /** Every run of a plan either succeeds or fails. */
  lemma {:induction false} OccurrencesSplit(exec: seq<(nat, Context)>, i: nat, p: Plan, env: Env)
    ensures Occurrences(exec, i) == SuccessesOf(exec, i, p, env) + FailuresOf(exec, i, p, env)
  {
    if exec != [] {
      OccurrencesSplit(exec[..|exec| - 1], i, p, env);
    }
  }

  /** The pairs that actually ran: all of them, or those up to the refused delete goal. */
  predicate Ran(b0: Book, b: Book, exec: seq<(nat, Context)>)
  {
    |b0.results| <= |b.results| <= |b0.results| + |exec| &&
    (!b.failed ==> |b.results| == |b0.results| + |exec|)
  }

  /** Every pair that ran counted one success of its own plan when its body succeeded and
      one failure of it otherwise, and its result is whether its body succeeded. */
  lemma RunCounts(b0: Book, reg: seq<Plan>, env: Env, sleeping: bool, exec: seq<(nat, Context)>)
    requires forall j :: 0 <= j < |exec| ==> exec[j].0 < |reg|
    requires |b0.successes| == |reg| && |b0.failures| == |reg| && !b0.failed
    ensures var b := Run(b0, reg, env, sleeping, exec);
      var n := |b.results| - |b0.results|;
      Ran(b0, b, exec) && b.results[..|b0.results|] == b0.results &&
      (forall i :: 0 <= i < |reg| ==>
        b.successes[i] == b0.successes[i] + SuccessesOf(exec[..n], i, reg[i], env) &&
        b.failures[i] == b0.failures[i] + FailuresOf(exec[..n], i, reg[i], env)) &&
      (forall i :: 0 <= i < |reg| ==>
        b.successes[i] + b.failures[i] == b0.successes[i] + b0.failures[i] + Occurrences(exec[..n], i)) &&
      (forall j :: 0 <= j < n ==>
        b.results[|b0.results| + j] == env.succeeds(reg[exec[j].0], exec[j].1))
  {
    RunResults(b0, reg, env, sleeping, exec);
    var b := Run(b0, reg, env, sleeping, exec);
    var n := |b.results| - |b0.results|;
    forall i | 0 <= i < |reg|
      ensures b.successes[i] == b0.successes[i] + SuccessesOf(exec[..n], i, reg[i], env)
      ensures b.failures[i] == b0.failures[i] + FailuresOf(exec[..n], i, reg[i], env)
      ensures b.successes[i] + b.failures[i] == b0.successes[i] + b0.failures[i] + Occurrences(exec[..n], i)
    {
      RunTally(b0, reg, env, sleeping, exec, i);
      OccurrencesSplit(exec[..n], i, reg[i], env);
    }
  }

  /** The results of a run: one per pair that ran, in list order. */
  lemma {:induction false} RunResults(b0: Book, reg: seq<Plan>, env: Env, sleeping: bool, exec: seq<(nat, Context)>)
    requires forall j :: 0 <= j < |exec| ==> exec[j].0 < |reg|
    requires |b0.successes| == |reg| && |b0.failures| == |reg| && !b0.failed
    ensures var b := Run(b0, reg, env, sleeping, exec);
      var n := |b.results| - |b0.results|;
      Ran(b0, b, exec) && b.results[..|b0.results|] == b0.results &&
      (forall j :: 0 <= j < n ==>
        b.results[|b0.results| + j] == env.succeeds(reg[exec[j].0], exec[j].1))
  {
    if exec != [] {
      var init := exec[..|exec| - 1];
      var pair := exec[|exec| - 1];
      assert forall j :: 0 <= j < |init| ==> init[j] == exec[j];
      RunResults(b0, reg, env, sleeping, init);
      var a := Run(b0, reg, env, sleeping, init);
      assert Run(b0, reg, env, sleeping, exec) == Step(a, reg, env, sleeping, pair);
      StepShape(a, reg, env, sleeping, pair);
    }
  }

  /** Plan `i` (which is `p`) has, in `b`, one more success per pair of plan `i` that ran
      since `b0` and succeeded, and one more failure per such pair that failed. */
  predicate Tallied(b0: Book, b: Book, exec: seq<(nat, Context)>, i: nat, p: Plan, env: Env)
  {
    var n := |b.results| - |b0.results|;
    0 <= n <= |exec| && i < |b.successes| && i < |b.failures| &&
    i < |b0.successes| && i < |b0.failures| &&
    b.successes[i] == b0.successes[i] + SuccessesOf(exec[..n], i, p, env) &&
    b.failures[i] == b0.failures[i] + FailuresOf(exec[..n], i, p, env)
  }

  lemma {:induction false} RunTally(b0: Book, reg: seq<Plan>, env: Env, sleeping: bool, exec: seq<(nat, Context)>, i: nat)
    requires forall j :: 0 <= j < |exec| ==> exec[j].0 < |reg|
    requires |b0.successes| == |reg| && |b0.failures| == |reg| && !b0.failed && i < |reg|
    ensures Tallied(b0, Run(b0, reg, env, sleeping, exec), exec, i, reg[i], env)
  {
    if exec == [] {
      assert exec[..0] == [];
    } else {
      var init := exec[..|exec| - 1];
      var pair := exec[|exec| - 1];
      assert forall j :: 0 <= j < |init| ==> init[j] == exec[j];
      RunTally(b0, reg, env, sleeping, init, i);
      RunResults(b0, reg, env, sleeping, init);
      var a := Run(b0, reg, env, sleeping, init);
      assert Run(b0, reg, env, sleeping, exec) == Step(a, reg, env, sleeping, pair);
      TallyStep(b0, a, reg, env, sleeping, exec, i);
    }
  }

  /** One step of `RunTally`: a step that runs its pair counts it once. */
  lemma TallyStep(b0: Book, a: Book, reg: seq<Plan>, env: Env, sleeping: bool, exec: seq<(nat, Context)>, i: nat)
    requires exec != [] && exec[|exec| - 1].0 < |reg| && i < |reg|
    requires |a.successes| == |reg| && |a.failures| == |reg|
    requires !a.failed ==> |a.results| - |b0.results| == |exec| - 1
    requires Tallied(b0, a, exec[..|exec| - 1], i, reg[i], env)
    ensures Tallied(b0, Step(a, reg, env, sleeping, exec[|exec| - 1]), exec, i, reg[i], env)
  {
    var init := exec[..|exec| - 1];
    var pair := exec[|exec| - 1];
    StepShape(a, reg, env, sleeping, pair);
    var na := |a.results| - |b0.results|;
    if a.failed {
      assert init[..na] == exec[..na];
    } else {
      assert exec[..na + 1] == exec && init[..na] == init;
    }
  }

  /** Queuing a delete goal never replaces a pending trigger. */
  lemma {:induction false} RunKeepsPending(b0: Book, reg: seq<Plan>, env: Env, sleeping: bool, exec: seq<(nat, Context)>)
    requires forall j :: 0 <= j < |exec| ==> exec[j].0 < |reg|
    requires |b0.successes| == |reg| && |b0.failures| == |reg|
    ensures var b := Run(b0, reg, env, sleeping, exec);
      forall k :: k in b0.pending ==> k in b.pending && b.pending[k] == b0.pending[k]
  {
    if exec != [] {
      var init := exec[..|exec| - 1];
      assert forall j :: 0 <= j < |init| ==> init[j] == exec[j];
      RunKeepsPending(b0, reg, env, sleeping, init);
    }
  }

  /** On an awake agent a run without refusal leaves every failed plan's delete goal
      pending (under its hash, possibly behind an earlier trigger with the same hash). */
  lemma {:induction false} RunQueuesDeleteGoals(b0: Book, reg: seq<Plan>, env: Env, exec: seq<(nat, Context)>)
    requires forall j :: 0 <= j < |exec| ==> exec[j].0 < |reg|
    requires |b0.successes| == |reg| && |b0.failures| == |reg| && !b0.failed
    ensures var b := Run(b0, reg, env, false, exec);
      !b.failed ==> forall j :: 0 <= j < |exec| && !env.succeeds(reg[exec[j].0], exec[j].1) ==>
        env.hash(DeleteGoalOf(reg[exec[j].0], exec[j].1)) in b.pending
  {
    if exec != [] {
      var init := exec[..|exec| - 1];
      assert forall j :: 0 <= j < |init| ==> init[j] == exec[j];
      RunQueuesDeleteGoals(b0, reg, env, init);
      var a := Run(b0, reg, env, false, init);
      RunKeepsPending(a, reg, env, false, [exec[|exec| - 1]]);
      assert Run(a, reg, env, false, [exec[|exec| - 1]]) == Step(Run(a, reg, env, false, []), reg, env, false, exec[|exec| - 1]);
    }
  }

  /** A refused delete goal stops the run at its own pair: its plan failed, and its
      allocated literal still has a variable. */
  lemma {:induction false} RunStopsAtRefusal(b0: Book, reg: seq<Plan>, env: Env, sleeping: bool, exec: seq<(nat, Context)>)
    requires forall j :: 0 <= j < |exec| ==> exec[j].0 < |reg|
    requires |b0.successes| == |reg| && |b0.failures| == |reg| && !b0.failed
    ensures var b := Run(b0, reg, env, sleeping, exec);
      var n := |b.results| - |b0.results|;
      b.failed ==> (!sleeping && 1 <= n <= |exec| &&
        !env.succeeds(reg[exec[n - 1].0], exec[n - 1].1) &&
        LiteralHasVariable(DeleteGoalOf(reg[exec[n - 1].0], exec[n - 1].1).literal))
  {
    if exec != [] {
      var init := exec[..|exec| - 1];
      assert forall j :: 0 <= j < |init| ==> init[j] == exec[j];
      var pair := exec[|exec| - 1];
      var a := Run(b0, reg, env, sleeping, init);
      var b := Run(b0, reg, env, sleeping, exec);
      assert b == Step(a, reg, env, sleeping, pair);
      StepShape(a, reg, env, sleeping, pair);
      RunCounts(b0, reg, env, sleeping, init);
      if a.failed {
        RunStopsAtRefusal(b0, reg, env, sleeping, init);
      } else if b.failed {
        assert |b.results| - |b0.results| == |exec|;
      }
    }
  }
}
