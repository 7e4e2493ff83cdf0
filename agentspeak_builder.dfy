/** The static builders the AgentSpeak parser calls (`CAgentSpeak`): each turns parsed
    pieces into an execution element, or refuses them. */
module AgentSpeakBuilder {

  import opened Wrappers

  type Path = seq<string>

  /** A literal as the builders see it: its fully qualified functor, the number of its
      ordered values and whether it carries the `@` (parallel) mark. */
  datatype Literal = Literal(functor: Path, argumentCount: nat, hasAt: bool)

  /** An action of the agent's action map and its minimal number of arguments. */
  datatype Action = Action(name: Path, minimalArgumentNumber: int)

  datatype BeliefKind = Add | Delete

  /** The unification constraint term: an expression, a variable, some other term, or none
      (Java `null`). `raw` is the constraint's raw value. */
  datatype Constraint =
    | ExpressionConstraint(raw: string)
    | VariableConstraint(raw: string)
    | OtherConstraint
    | NoConstraint

  /** The execution elements the builders create. `V` is the variable type. */
  datatype Execution<V> =
    | ActionProxy(parallel: bool, action: Action)
    | TestRule(rule: string)
    | TestGoal(goal: string)
    | Increment(variable: V)
    | Decrement(variable: V)
    | BeliefAction(literal: Literal, kind: BeliefKind)
    | ExpressionUnify(parallel: bool, literal: Literal, expression: string)
    | VariableUnify(parallel: bool, literal: Literal, variableName: string)
    | DefaultUnify(parallel: bool, literal: Literal)

  datatype AnnotationKind = Parallel | Atomic

  datatype Plan = EmptyPlan
  datatype Rule = EmptyRule

  /** `String.contains`. */
  predicate Contains(text: string, part: string)
  {
    part <= text || (text != [] && Contains(text[1..], part))
  }

  /** `action`: the action registered under the literal's functor, wrapped with the
      literal's `@` mark; an unknown functor or too few arguments is an illegal argument. */
  function BuildAction(literal: Literal, actions: map<Path, Action>): (r: Result<Execution<string>>)
    ensures r.Ok? <==>
      literal.functor in actions && literal.argumentCount >= actions[literal.functor].minimalArgumentNumber
    ensures r.Ok? ==> (r.value.ActionProxy? && r.value.action == actions[literal.functor] &&
      (r.value.parallel <==> literal.hasAt))
    ensures literal.functor !in actions ==> r == Err(IllegalArgument("actionunknown"))
    ensures literal.functor in actions && r.Err? ==> r == Err(IllegalArgument("argumentnumber"))
  {
    if literal.functor !in actions then Err(IllegalArgument("actionunknown"))
    else
      var action := actions[literal.functor];
      if literal.argumentCount < action.minimalArgumentNumber then Err(IllegalArgument("argumentnumber"))
      else Ok(ActionProxy(literal.hasAt, action))
  }

  /** `unary`: `++` increments, `--` decrements, any other operator builds nothing. */
  function Unary<V>(operator: string, variable: V): (r: Option<Execution<V>>)
    ensures r.Some? <==> operator == "++" || operator == "--"
    ensures r.Some? ==> ((r.value.Increment? <==> operator == "++") &&
      (r.value.Increment? || r.value.Decrement?) && r.value.variable == variable)
  {
    if operator == "++" then Some(Increment(variable))
    else if operator == "--" then Some(Decrement(variable))
    else None
  }

  /** `testgoal`: with the dollar sign a rule test, without it a goal test, both on the
      atom's text. */
  function BuildTestGoal(dollar: bool, atom: string): (r: Execution<string>)
    ensures r.TestRule? <==> dollar
    ensures r.TestRule? || r.TestGoal?
    ensures if dollar then r.rule == atom else r.goal == atom
  {
    if dollar then TestRule(atom) else TestGoal(atom)
  }

  /** `beliefaction`: the add sign wins over the delete sign; neither builds nothing. */
  function BuildBeliefAction(add: bool, delete: bool, literal: Literal): (r: Option<Execution<string>>)
    ensures r.Some? <==> add || delete
    ensures r.Some? ==> (r.value.BeliefAction? && r.value.literal == literal &&
      (r.value.kind == Add <==> add))
  {
    if add then Some(BeliefAction(literal, Add))
    else if delete then Some(BeliefAction(literal, Delete))
    else None
  }

  /** `unification`: an expression constraint unifies by expression, a variable constraint
      by variable, anything else (a missing constraint included) by default. */
  function Unification(parallel: bool, literal: Literal, constraint: Constraint): (r: Execution<string>)
    ensures r.ExpressionUnify? <==> constraint.ExpressionConstraint?
    ensures r.VariableUnify? <==> constraint.VariableConstraint?
    ensures r.ExpressionUnify? || r.VariableUnify? || r.DefaultUnify?
    ensures r.parallel == parallel && r.literal == literal
    ensures r.ExpressionUnify? ==> r.expression == constraint.raw
    ensures r.VariableUnify? ==> r.variableName == constraint.raw
  {
    match constraint
    case ExpressionConstraint(raw) => ExpressionUnify(parallel, literal, raw)
    case VariableConstraint(raw) => VariableUnify(parallel, literal, raw)
    case _ => DefaultUnify(parallel, literal)
  }

  /** `annotation`: no terminal, no annotation; text mentioning "parallel" is a parallel
      annotation, otherwise text mentioning "atomic" an atomic one; text mentioning
      "constant" that the constant pattern finds makes `group(2)` fail, because the
      pattern has no capturing group; anything else is no annotation. `constantFound`
      stands for `Matcher.find` with the pattern `.+\( .+, .+ \)`. */
  function Annotation(terminal: Option<string>, constantFound: string -> bool): (r: Result<Option<AnnotationKind>>)
    ensures r == Ok(Some(Parallel)) <==> terminal.Some? && Contains(terminal.value, "parallel")
    ensures r == Ok(Some(Atomic)) <==>
      terminal.Some? && !Contains(terminal.value, "parallel") && Contains(terminal.value, "atomic")
    ensures r.Err? <==>
      terminal.Some? && !Contains(terminal.value, "parallel") && !Contains(terminal.value, "atomic") &&
      Contains(terminal.value, "constant") && constantFound(terminal.value)
    ensures r.Err? ==> r.error == IndexOutOfBounds
  {
    match terminal
    case None => Ok(None)
    case Some(text) =>
      if Contains(text, "parallel") then Ok(Some(Parallel))
      else if Contains(text, "atomic") then Ok(Some(Atomic))
      else if Contains(text, "constant") && constantFound(text) then Err(IndexOutOfBounds)
      else Ok(None)
  }

  /** `plan`: every plan is the empty plan. The annotation stream is mapped but never
      consumed, so no annotation is built and none can fail. */
  function BuildPlan(trigger: string, annotations: seq<Option<string>>): (r: Plan)
    ensures r == EmptyPlan
  {
    EmptyPlan
  }

  /** `rule`: every rule is the empty rule. */
  function BuildRule(literal: Literal, annotations: seq<Option<string>>): (r: Rule)
    ensures r == EmptyRule
  {
    EmptyRule
  }

  /** `deconstruct`: the literal when there is one, otherwise the variable. */
  function DeconstructTarget<T>(literal: Option<T>, variable: Option<T>): (r: Option<T>)
    ensures literal.Some? ==> r == literal
    ensures literal.None? ==> r == variable
  {
    if literal.Some? then literal else variable
  }

  /** The text `@parallel atomic` asks for a parallel annotation: "parallel" is tested
      first. */
  lemma ParallelBeforeAtomic(constantFound: string -> bool)
    ensures Annotation(Some("@parallel atomic"), constantFound) == Ok(Some(Parallel))
  {
    var text := "@parallel atomic";
    assert "parallel" <= text[1..];
  }

  /** Text naming neither kind is no annotation, unless it names "constant" and the
      constant pattern finds it. */
  lemma OtherTextIsNoAnnotation(text: string, constantFound: string -> bool)
    requires !Contains(text, "parallel") && !Contains(text, "atomic")
    requires !Contains(text, "constant") || !constantFound(text)
    ensures Annotation(Some(text), constantFound) == Ok(None)
  {
  }
}
