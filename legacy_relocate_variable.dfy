/** The relocated variable of the legacy `lightjason.language.variable` package: a
    variable that remembers another variable and can write its own value back into it. */
module LegacyRelocateVariable {

  import opened LegacyTerms

  /** The legacy variable a relocated variable writes through to: a functor and a value
      cell that `set` overwrites. */
  class Variable {
    const functor: Path
    var value: Obj

    constructor (functor: Path, value: Obj)
      ensures this.functor == functor && this.value == value
    {
      this.functor := functor;
      this.value := value;
    }

    /** `set`: stores the value and returns the variable itself. */
    method Set(v: Obj) returns (self: Variable)
      modifies this
      ensures value == v && self == this
    {
      value := v;
      self := this;
    }
  }

  /** CRelocateVariable: its own functor and value, and the variable it relocates to,
      fixed when it is built. */
  class RelocateVariable {
    const functor: Path
    var value: Obj
    /** m_relocate */
    const target: Variable

    /** `CRelocateVariable(functor, variable)`: a variable without value. */
    constructor (functor: Path, target: Variable)
      ensures this.functor == functor && this.target == target && value == Null
    {
      this.functor := functor;
      this.value := Null;
      this.target := target;
    }

    /** The private copy constructor. */
    constructor Copy(functor: Path, value: Obj, target: Variable)
      ensures this.functor == functor && this.value == value && this.target == target
    {
      this.functor := functor;
      this.value := value;
      this.target := target;
    }

    /** `relocate`: the target takes this variable's value; this variable keeps it. */
    method Relocate() returns (r: Variable)
      modifies target
      ensures target.value == value && r == target
      ensures unchanged(this)
    {
      r := target.Set(value);
    }

    /** `shallowcopy(prefix...)`: same value and target; a first prefix is put in front of
        the functor. */
    method ShallowCopy(prefix: seq<Path>) returns (r: RelocateVariable)
      ensures fresh(r)
      ensures r.functor == (if prefix == [] then functor else prefix[0] + functor)
      ensures r.value == value && r.target == target
    {
      if prefix == [] {
        r := new RelocateVariable.Copy(functor, value, target);
      } else {
        r := new RelocateVariable.Copy(prefix[0] + functor, value, target);
      }
    }

    /** `shallowcopySuffix`: the functor's last segment and the same target, but the
        value is not carried over. */
    method ShallowCopySuffix() returns (r: RelocateVariable)
      ensures fresh(r)
      ensures r.functor == [Suffix(functor)] && r.target == target && r.value == Null
    {
      r := new RelocateVariable([Suffix(functor)], target);
    }
  }

  /** Relocating after a unification bound the inner variable hands the bound value to
      the outer variable; a suffix copy made beforehand has nothing to hand over. */
  method RelocationScenario(outer: Variable, bound: Obj)
    modifies outer
    ensures outer.value == bound
  {
    var inner := new RelocateVariable(["x"], outer);
    var suffix := inner.ShallowCopySuffix();
    inner.value := bound;
    var r := inner.Relocate();
    assert r == outer && suffix.value == Null && inner.value == bound;
  }
}
