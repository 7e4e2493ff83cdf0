/** The variable of the `org.lightjason.agentspeak` generation (`CVariable`): a functor path
    and a value cell that may hold nothing (Java `null`). */
module AgentSpeakVariable {

  import opened Wrappers

  type Path = seq<string>

  /** `IPath.suffix`: the last segment, the empty string for the empty path. */
  function Suffix(p: Path): string
  {
    if p == [] then "" else p[|p| - 1]
  }

  class Variable<T> {
    const functor: Path
    var value: Option<T>

    /** `CVariable(functor)`: a variable without value. */
    constructor (functor: Path)
      ensures this.functor == functor && value == None
    {
      this.functor := functor;
      this.value := None;
    }

    /** `CVariable(functor, value)`, both the string and the path form. */
    constructor WithValue(functor: Path, value: Option<T>)
      ensures this.functor == functor && this.value == value
    {
      this.functor := functor;
      this.value := value;
    }

    /** `mutex`: a plain variable is never synchronised. */
    function Mutex(): (r: bool)
      ensures !r
    {
      false
    }

    /** `setvalue` (and `set`, which stores through it): returns the variable itself. */
    method Set(v: Option<T>) returns (self: Variable<T>)
      modifies this
      ensures value == v && self == this
    {
      value := v;
      self := this;
    }

    /** `shallowcopy(prefix...)`: the same value; a first prefix goes in front of the
        functor. */
    method ShallowCopy(prefix: seq<Path>) returns (r: Variable<T>)
      ensures fresh(r)
      ensures r.functor == (if prefix == [] then functor else prefix[0] + functor)
      ensures r.value == value
    {
      if prefix == [] {
        r := new Variable.WithValue(functor, value);
      } else {
        r := new Variable.WithValue(prefix[0] + functor, value);
      }
    }

    /** `shallowcopysuffix`: the last functor segment and the same value. */
    method ShallowCopySuffix() returns (r: Variable<T>)
      ensures fresh(r)
      ensures r.functor == [Suffix(functor)] && r.value == value
    {
      r := new Variable.WithValue([Suffix(functor)], value);
    }

    /** `deepcopy(prefix...)`: a copy of the value; a first path is appended AFTER the
        functor, unlike `shallowcopy`, which puts it in front. */
    method DeepCopy(prefix: seq<Path>) returns (r: Variable<T>)
      ensures fresh(r)
      ensures r.functor == (if prefix == [] then functor else functor + prefix[0])
      ensures r.value == value
    {
      if prefix == [] {
        r := new Variable.WithValue(functor, value);
      } else {
        r := new Variable.WithValue(functor + prefix[0], value);
      }
    }

    /** `deepcopysuffix`: the last functor segment and a copy of the value. */
    method DeepCopySuffix() returns (r: Variable<T>)
      ensures fresh(r)
      ensures r.functor == [Suffix(functor)] && r.value == value
    {
      r := new Variable.WithValue([Suffix(functor)], value);
    }
  }

  /** Copies are independent objects: setting the shallow copy's value changes neither
      the original nor the deep copy, and the two copy operations place a prefix on
      opposite sides of the functor. */
  method CopiesAreIndependent<T>(x: Variable<T>, prefix: Path, v: Option<T>)
    returns (shallow: Variable<T>, deep: Variable<T>)
    ensures fresh(shallow) && fresh(deep) && shallow != deep
    ensures shallow.functor == prefix + x.functor && deep.functor == x.functor + prefix
    ensures shallow.value == v
    ensures x.value == old(x.value) && deep.value == old(x.value)
  {
    shallow := x.ShallowCopy([prefix]);
    deep := x.DeepCopy([prefix]);
    var _ := shallow.Set(v);
  }
}
