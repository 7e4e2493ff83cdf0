/** The legacy plan (`lightjason.language.plan.CPlan`): a trigger event, a head literal and
    an unmodifiable body of operations, evaluated as a short-circuit conjunction. */
module LegacyPlan {

  /** The plan states the legacy plan uses; a new plan starts successful. The other
      values of EExecutionState are not part of this model. */
  datatype ExecutionState = Success

  /** `E` is the trigger event, `L` the head literal and `Op` a body operation. */
  datatype Plan<E, L, Op> = Plan(
    trigger: E,
    literal: L,
    state: ExecutionState,
    runs: nat,
    failRuns: nat,
    body: seq<Op>)

  /** The constructor `CPlan(event, literal, body)`. */
  function NewPlan<E, L, Op>(event: E, literal: L, body: seq<Op>): (p: Plan<E, L, Op>)
    ensures p.trigger == event && p.literal == literal && p.body == body
    ensures p.state == Success && p.runs == 0 && p.failRuns == 0
  {
    Plan(event, literal, Success, 0, 0, body)
  }

  /** `getTrigger`. */
  function GetTrigger<E, L, Op>(p: Plan<E, L, Op>): E
  {
    p.trigger
  }

  /** The operations `allMatch` asks, in order: all of them when each holds, otherwise
      up to and including the first that fails. `eval` stands for `IOperation.evaluate`
      against the plan's belief base and running plans. */
  function Evaluated<Op>(ops: seq<Op>, eval: Op -> bool): (r: seq<Op>)
    ensures r <= ops
    ensures forall i :: 0 <= i < |r| - 1 ==> eval(r[i])
    ensures r != ops ==> r != [] && !eval(r[|r| - 1])
  {
    if ops == [] then []
    else if !eval(ops[0]) then [ops[0]]
    else [ops[0]] + Evaluated(ops[1..], eval)
  }

  /** The short-circuit conjunction of the operations: it holds exactly when every
      operation holds, so an empty list holds. */
  function Conjunction<Op>(ops: seq<Op>, eval: Op -> bool): (r: bool)
    ensures r <==> forall i :: 0 <= i < |ops| ==> eval(ops[i])
  {
    assert forall i :: 1 <= i < |ops| ==> ops[i] == ops[1..][i - 1];
    ops == [] || (eval(ops[0]) && Conjunction(ops[1..], eval))
  }

  /** `evaluate`: the plan holds exactly when every body operation holds. */
  function Evaluate<E, L, Op>(p: Plan<E, L, Op>, eval: Op -> bool): (r: bool)
    ensures r <==> forall i :: 0 <= i < |p.body| ==> eval(p.body[i])
  {
    Conjunction(p.body, eval)
  }

  /** Evaluation stops at the first failing operation: a failing plan asked exactly the
      operations up to the first failure, a holding plan asked them all. */
  lemma {:induction false} EvaluatedStopsAtFirstFailure<Op>(ops: seq<Op>, eval: Op -> bool)
    ensures Conjunction(ops, eval) <==> Evaluated(ops, eval) == ops && (ops == [] || eval(ops[|ops| - 1]))
    ensures !Conjunction(ops, eval) ==>
      var r := Evaluated(ops, eval);
      r != [] && !eval(r[|r| - 1]) && forall i :: 0 <= i < |r| - 1 ==> eval(ops[i])
  {
    if ops != [] {
      EvaluatedStopsAtFirstFailure(ops[1..], eval);
      if eval(ops[0]) {
        var rest := Evaluated(ops[1..], eval);
        assert Evaluated(ops, eval) == [ops[0]] + rest;
        if rest == ops[1..] {
          assert [ops[0]] + ops[1..] == ops;
          if ops[1..] != [] {
            assert ops[|ops| - 1] == ops[1..][|ops[1..]| - 1];
          }
        } else {
          assert ([ops[0]] + rest)[1..] == rest;
        }
      }
    }
  }

  /** The body given at construction is the body evaluated. */
  lemma NewPlanEvaluatesBody<E, L, Op>(event: E, literal: L, body: seq<Op>, eval: Op -> bool)
    ensures Evaluate(NewPlan(event, literal, body), eval) <==> forall i :: 0 <= i < |body| ==> eval(body[i])
    ensures GetTrigger(NewPlan(event, literal, body)) == event
  {
  }
}
