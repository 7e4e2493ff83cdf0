/** The multi-variable assignment `[A|B|C] = expression` (`CMultiAssignment`): the right-hand
    side's results are flattened and assigned position by position to the left-hand
    variables, and the last variable takes the whole remaining tail. */
module AgentSpeakAssignment {

  import opened Wrappers
  import opened AgentSpeakVariable

  /** A term a right-hand side returns: a plain value or a list of terms. */
  datatype Term = Atom(payload: string) | Collection(items: seq<Term>)

  /** What a variable is set to: a term's raw value, or a list of terms. */
  datatype Value = Raw(payload: string) | Terms(terms: seq<Term>)

  /** `ITerm.raw`. */
  function RawOf(t: Term): Value
  {
    match t
    case Atom(p) => Raw(p)
    case Collection(items) => Terms(items)
  }

  function Size(t: Term): nat
  {
    match t
    case Atom(_) => 1
    case Collection(items) => 1 + SizeAll(items)
  }

  function SizeAll(s: seq<Term>): nat
  {
    if s == [] then 0 else Size(s[0]) + SizeAll(s[1..])
  }

  /** `CCommon.flatten` of one term. */
  function FlattenTerm(t: Term): (r: seq<Term>)
    ensures forall i :: 0 <= i < |r| ==> r[i].Atom?
    decreases Size(t), 0
  {
    match t
    case Atom(_) => [t]
    case Collection(items) => Flatten(items)
  }

  /** `CCommon.flatten`: list terms are replaced by their elements, recursively. */
  function Flatten(s: seq<Term>): (r: seq<Term>)
    ensures forall i :: 0 <= i < |r| ==> r[i].Atom?
    decreases SizeAll(s), 1
  {
    if s == [] then [] else FlattenTerm(s[0]) + Flatten(s[1..])
  }

  /** Flattening a list of plain values changes nothing. */
  lemma {:induction false} FlattenAtoms(s: seq<Term>)
    requires forall i :: 0 <= i < |s| ==> s[i].Atom?
    ensures Flatten(s) == s
  {
    if s != [] {
      FlattenAtoms(s[1..]);
      assert [s[0]] + s[1..] == s;
    }
  }

  /** Flattening distributes over concatenation. */
  lemma {:induction false} FlattenAppend(a: seq<Term>, b: seq<Term>)
    ensures Flatten(a + b) == Flatten(a) + Flatten(b)
  {
    if a != [] {
      FlattenAppend(a[1..], b);
      assert (a + b)[1..] == a[1..] + b;
    } else {
      assert a + b == b;
    }
  }

  /** The writes an assignment performs, in order: the positional ones, then the tail. */
  function Writes<V>(targets: seq<V>, flat: seq<Term>): (w: seq<(V, Value)>)
    ensures |w| == Min(|targets|, |flat|) + (if 0 < |targets| < |flat| then 1 else 0)
  {
    Positional(targets, flat, Min(|targets|, |flat|)) +
    (if 0 < |targets| < |flat|
     then [(targets[|targets| - 1], Terms(flat[|targets| - 1..]))]
     else [])
  }

  function Min(a: int, b: int): int { if a < b then a else b }

  lemma WritesSplit<V>(targets: seq<V>, flat: seq<Term>)
    ensures 0 < |targets| < |flat| ==> (Writes(targets, flat) ==
      Positional(targets, flat, |targets|) + [(targets[|targets| - 1], Terms(flat[|targets| - 1..]))])
    ensures !(0 < |targets| < |flat|) ==>
      Writes(targets, flat) == Positional(targets, flat, Min(|targets|, |flat|))
  {
  }

  /** The first `n` positional writes: variable `i` takes the raw value of result `i`. */
  function Positional<V>(targets: seq<V>, flat: seq<Term>, n: nat): (w: seq<(V, Value)>)
    requires n <= |targets| && n <= |flat|
    ensures |w| == n
    ensures forall i :: 0 <= i < n ==> w[i] == (targets[i], RawOf(flat[i]))
  {
    if n == 0 then [] else Positional(targets, flat, n - 1) + [(targets[n - 1], RawOf(flat[n - 1]))]
  }

  /** The value a variable holds after the writes: the last one to it, or its old one. */
  function LastWrite<V(==)>(writes: seq<(V, Value)>, v: V, prior: Option<Value>): Option<Value>
  {
    if writes == [] then prior
    else if writes[|writes| - 1].0 == v then Some(writes[|writes| - 1].1)
    else LastWrite(writes[..|writes| - 1], v, prior)
  }

  /** One more write: it decides the value of its variable and no other. */
  lemma LastWriteSnoc<V>(writes: seq<(V, Value)>, w: (V, Value), v: V, prior: Option<Value>)
    ensures LastWrite(writes + [w], v, prior) ==
      if w.0 == v then Some(w.1) else LastWrite(writes, v, prior)
  {
    assert (writes + [w])[..|writes|] == writes;
  }

  /** A variable written exactly once, at position `k`, ends with that value. */
  lemma {:induction false} LastWriteUnique<V>(writes: seq<(V, Value)>, k: nat, prior: Option<Value>)
    requires k < |writes|
    requires forall j :: 0 <= j < |writes| && j != k ==> writes[j].0 != writes[k].0
    ensures LastWrite(writes, writes[k].0, prior) == Some(writes[k].1)
  {
    if k != |writes| - 1 {
      LastWriteUnique(writes[..|writes| - 1], k, prior);
    }
  }

  /** A variable never written keeps its value. */
  lemma {:induction false} LastWriteUntouched<V>(writes: seq<(V, Value)>, v: V, prior: Option<Value>)
    requires forall j :: 0 <= j < |writes| ==> writes[j].0 != v
    ensures LastWrite(writes, v, prior) == prior
  {
    if writes != [] {
      LastWriteUntouched(writes[..|writes| - 1], v, prior);
    }
  }

  /** With distinct left-hand variables: variable `i` takes result `i` as raw value; when
      there are more results than variables, the last variable takes the list of all
      remaining results instead; variables beyond the results keep their values. */
  lemma AssignedValues<V>(targets: seq<V>, flat: seq<Term>, i: nat, prior: Option<Value>)
    requires forall a, b :: 0 <= a < b < |targets| ==> targets[a] != targets[b]
    requires i < |targets|
    ensures var n := |targets|;
      LastWrite(Writes(targets, flat), targets[i], prior) ==
        if i == n - 1 && n < |flat| then Some(Terms(flat[n - 1..]))
        else if i < |flat| then Some(RawOf(flat[i]))
        else prior
  {
    var n := |targets|;
    var m := Min(n, |flat|);
    var w := Writes(targets, flat);
    var pos := Positional(targets, flat, m);
    assert w[..m] == pos;
    if i == n - 1 && n < |flat| {
      assert w[|w| - 1] == (targets[i], Terms(flat[n - 1..]));
    } else if i < |flat| {
      if 0 < n < |flat| {
        assert w[..|w| - 1] == pos && w[|w| - 1].0 == targets[n - 1];
      } else {
        assert w == pos;
      }
      LastWriteUnique(pos, i, prior);
    } else {
      assert w == pos;
      LastWriteUntouched(w, targets[i], prior);
    }
  }

  /** The outcome of the right-hand side: its fuzzy truth value, defuzzified, and the
      terms it returned. */
  datatype Outcome = Outcome(success: bool, results: seq<Term>)

  /** The positional part of `execute`: variable `i` takes the raw value of result `i`,
      for every position both lists have. */
  method AssignPositional(targets: seq<Variable<Value>>, flat: seq<Term>, ghost scope: set<Variable<Value>>)
    requires forall j :: 0 <= j < |targets| ==> targets[j] in scope
    modifies scope
    ensures forall v :: v in scope ==>
      v.value == LastWrite(Positional(targets, flat, Min(|targets|, |flat|)), v, old(v.value))
  {
    var m := Min(|targets|, |flat|);
    var i := 0;
    while i < m
      invariant 0 <= i <= m
      invariant forall v :: v in scope ==>
        v.value == LastWrite(Positional(targets, flat, i), v, old(v.value))
    {
      var t := targets[i];
      ghost var before := Positional(targets, flat, i);
      ghost var w := (t, RawOf(flat[i]));
      assert Positional(targets, flat, i + 1) == before + [w];
      label Before:
      t.value := Some(RawOf(flat[i]));
      forall v | v in scope
        ensures v.value == LastWrite(before + [w], v, old(v.value))
      {
        LastWriteSnoc(before, w, v, old(v.value));
        if v != t {
          assert v.value == old@Before(v.value);
        }
      }
      i := i + 1;
    }
  }

  class MultiAssignment {
    /** m_value: the left-hand variables. */
    const lefthand: seq<Variable<Value>>
    /** The variables the right-hand side uses. */
    const righthandVariables: seq<Variable<Value>>

    constructor (lefthand: seq<Variable<Value>>, righthandVariables: seq<Variable<Value>>)
      ensures this.lefthand == lefthand && this.righthandVariables == righthandVariables
    {
      this.lefthand := lefthand;
      this.righthandVariables := righthandVariables;
    }

    /** `variables`: the left-hand variables followed by those of the right-hand side. */
    function Variables(): (r: seq<Variable<Value>>)
      ensures |r| == |lefthand| + |righthandVariables|
      ensures r[..|lefthand|] == lefthand && r[|lefthand|..] == righthandVariables
    {
      lefthand + righthandVariables
    }

    /** The context's instance of every left-hand variable, by functor. */
    function Targets(context: map<Path, Variable<Value>>): (r: Option<seq<Variable<Value>>>)
      ensures r.Some? <==> forall i :: 0 <= i < |lefthand| ==> lefthand[i].functor in context
      ensures r.Some? ==> (|r.value| == |lefthand| &&
        forall i :: 0 <= i < |lefthand| ==> r.value[i] == context[lefthand[i].functor])
    {
      if forall i :: 0 <= i < |lefthand| ==> lefthand[i].functor in context
      then Some(seq(|lefthand|, i requires 0 <= i < |lefthand| => context[lefthand[i].functor]))
      else None
    }

    /** `execute`: `Ok(false)` when the right-hand side fails or returns nothing; an error
        when a left-hand variable is missing from the context, or when there is no
        left-hand variable to take a non-empty result; otherwise the writes of `Writes`,
        and `Ok(true)`. */
    method Execute(context: map<Path, Variable<Value>>, rhs: Outcome) returns (r: Result<bool>)
      modifies context.Values
      ensures !rhs.success || rhs.results == [] ==> r == Ok(false) && unchanged(context.Values)
      ensures rhs.success && rhs.results != [] && Targets(context).None? ==>
        r.Err? && unchanged(context.Values)
      ensures rhs.success && rhs.results != [] && Targets(context).Some? ==>
        var flat := Flatten(rhs.results);
        var targets := Targets(context).value;
        (r == if targets == [] && flat != [] then Err(IndexOutOfBounds) else Ok(true)) &&
        forall v :: v in context.Values ==> v.value == LastWrite(Writes(targets, flat), v, old(v.value))
    {
      if !rhs.success || rhs.results == [] {
        return Ok(false);
      }
      var flat := Flatten(rhs.results);
      var assign := Targets(context);
      if assign.None? {
        return Err(IllegalArgument("variable not found in context"));
      }
      var targets := assign.value;
      AssignPositional(targets, flat, context.Values);
      WritesSplit(targets, flat);
      if |targets| < |flat| {
        if targets == [] {
          return Err(IndexOutOfBounds);
        }
        ghost var pos := Positional(targets, flat, |targets|);
        label Positioned:
        var last := targets[|targets| - 1];
        var tail := Terms(flat[|targets| - 1..]);
        last.value := Some(tail);
        forall v | v in context.Values
          ensures v.value == LastWrite(pos + [(last, tail)], v, old(v.value))
        {
          LastWriteSnoc(pos, (last, tail), v, old(v.value));
          if v != last {
            assert v.value == old@Positioned(v.value);
          }
        }
      }
      r := Ok(true);
    }
  }
}
