/** Raw terms and the term helpers of the legacy `lightjason.language` package
    (CRawTerm and CCommon). Java objects are values of `Obj`; what only the JVM knows
    about an object (its `hashCode`, its `toString`, how a string becomes a path) is
    supplied by a `Runtime`. */
module LegacyTerms {

  import opened Wrappers

  /** A dot-separated functor path (CPath), one string per segment. */
  type Path = seq<string>

  newtype byte = x: int | 0 <= x < 256

  /** The Java objects the helpers see. */
  datatype Obj =
    | Null
    | Host(text: string)                 // any other host value: a number, a string, ...
    | Coll(items: seq<Obj>, isList: bool) // a java.util.Collection, `isList` for a java.util.List
    | Raw(term: RawTerm)                 // a CRawTerm
    | Var(functor: Path, value: Obj)     // a variable, seen through its current value
    | Lit(functor: Path, args: seq<Obj>) // any other term, e.g. a literal

  /** CRawTerm: all three fields are final and set by the constructor. */
  datatype RawTerm = RawTerm(value: Obj, functor: Path, hashcode: int)

  /** What the JVM supplies: `hashCode`, `toString`, `CPath.from`, and the identity
      hash `Object.hashCode` gives a raw term that wraps `null`. The JVM gives each new
      object its own identity hash; the model uses one value for all of them. */
  datatype Runtime = Runtime(hash: Obj -> int, text: Obj -> string, pathOf: string -> Path, identity: int)

  /** The last segment of a path (CPath.getSuffix); empty for the empty path. */
  function Suffix(p: Path): string
  {
    if p == [] then "" else p[|p| - 1]
  }

  /** A path without its last segment (getSubPath(0, size - 1)); empty for the empty path. */
  function Prefix(p: Path): Path
  {
    if p == [] then [] else p[..|p| - 1]
  }

  // ---------------------------------------------------------------- CRawTerm

  /** `CRawTerm(value)`: a raw term or a variable hands over its value and functor; any
      other object is wrapped itself, its functor parsed from its text. */
  function From(p: Obj, rt: Runtime): (t: RawTerm)
    ensures p.Raw? ==> t.value == p.term.value && t.functor == p.term.functor
    ensures p.Var? ==> t.value == p.value && t.functor == p.functor
    ensures !p.Raw? && !p.Var? ==> t.value == p
    ensures p == Null ==> t.functor == []
    ensures t.value != Null ==> t.hashcode == HashOf(t.value, rt)
    ensures t.value.Raw? ==> t.hashcode == t.value.term.hashcode
    ensures t.value == Null ==> t.hashcode == rt.identity
  {
    var (value, functor) :=
      match p
      case Raw(term) => (term.value, term.functor)
      case Var(f, v) => (v, f)
      case Null => (Null, [])
      case _ => (p, rt.pathOf(rt.text(p)));
    RawTerm(value, functor, if value == Null then rt.identity else HashOf(value, rt))
  }

  /** A raw term whose cached hash code is the one the constructor computes. */
  predicate Consistent(t: RawTerm, rt: Runtime)
  {
    t.hashcode == (if t.value == Null then rt.identity else HashOf(t.value, rt))
  }

  /** The constructor always caches a consistent hash code. Wrapping an allocated raw
      term again gives it back unchanged; wrapping one without value keeps its value and
      functor, and its hash code is the new object's identity hash. */
  lemma FromRawIsIdentity(p: Obj, t: RawTerm, rt: Runtime)
    requires Consistent(t, rt)
    ensures Consistent(From(p, rt), rt)
    ensures IsAllocated(t) ==> From(Raw(t), rt) == t
    ensures !IsAllocated(t) ==> From(Raw(t), rt).value == Null && From(Raw(t), rt).functor == t.functor
                                && From(Raw(t), rt).hashcode == rt.identity
  {
  }

  /** `hashCode` of any object: a raw term answers its cached hash code (the method is
      final), any other object what the runtime says. */
  function HashOf(o: Obj, rt: Runtime): int
  {
    if o.Raw? then o.term.hashcode else rt.hash(o)
  }

  /** `equals`: hash codes are compared; against a variable, with the hash code of the
      variable's value. Both a `null` argument and a variable without value throw. */
  function Equals(t: RawTerm, other: Obj, rt: Runtime): (r: Result<bool>)
    ensures other == Null ==> r == Err(NullPointer)
    ensures other.Var? && other.value == Null ==> r == Err(NullPointer)
    ensures other.Var? && other.value != Null ==> r == Ok(t.hashcode == HashOf(other.value, rt))
    ensures other.Var? && other.value.Raw? ==> r == Ok(t.hashcode == other.value.term.hashcode)
    ensures other.Raw? ==> r == Ok(t.hashcode == other.term.hashcode)
  {
    match other
    case Null => Err(NullPointer)
    case Var(_, v) => if v == Null then Err(NullPointer) else Ok(t.hashcode == HashOf(v, rt))
    case _ => Ok(t.hashcode == HashOf(other, rt))
  }

  /** Raw-term equality is an equivalence: two raw terms are equal exactly when their
      hash codes are, so two allocated terms over one value are always equal. */
  lemma EqualsIsHashEquivalence(a: RawTerm, b: RawTerm, c: RawTerm, rt: Runtime)
    ensures Equals(a, Raw(a), rt) == Ok(true)
    ensures Equals(a, Raw(b), rt) == Equals(b, Raw(a), rt)
    ensures Equals(a, Raw(b), rt) == Ok(true) && Equals(b, Raw(c), rt) == Ok(true) ==> Equals(a, Raw(c), rt) == Ok(true)
    ensures a.value != Null && a == From(a.value, rt) && b == From(a.value, rt) ==> Equals(a, Raw(b), rt) == Ok(true)
  {
  }

  /** The hash code of a raw term over a value is that value's own hash code. */
  lemma HashCodeOfValue(p: Obj, rt: Runtime)
    requires !p.Raw? && !p.Var? && p != Null
    ensures From(p, rt).hashcode == rt.hash(p)
  {
  }

  /** `getFunctor`: the last segment of the functor path. */
  function GetFunctor(t: RawTerm): (r: string)
    ensures t.functor != [] ==> r == t.functor[|t.functor| - 1]
    ensures t.functor == [] ==> r == ""
  {
    Suffix(t.functor)
  }

  /** `getFunctorPath`: the functor path without its last segment, so that the path and
      the functor make up the whole functor path again. */
  function GetFunctorPath(t: RawTerm): (r: Path)
    ensures t.functor != [] ==> r + [GetFunctor(t)] == t.functor && |r| == |t.functor| - 1
    ensures t.functor == [] ==> r == []
  {
    Prefix(t.functor)
  }

  /** `isAllocated`: the term holds a non-null value. */
  predicate IsAllocated(t: RawTerm): (r: bool)
    ensures r <==> t.value != Null
  {
    t.value != Null
  }

  /** `throwNotAllocated(names...)`: the term itself when it holds a value. Otherwise the
      error message is built from `names[0]`, or from the term when the array is `null`
      (`None`), and an IllegalState error is thrown; an empty array (the call without
      arguments) fails on `names[0]` before that. */
  function ThrowNotAllocated(t: RawTerm, names: Option<seq<string>>): (r: Result<RawTerm>)
    ensures r.Ok? <==> IsAllocated(t)
    ensures r.Ok? ==> r.value == t
    ensures r.Err? && names == Some([]) ==> r.error == IndexOutOfBounds
    ensures r.Err? && names != Some([]) ==> r.error.IllegalState?
  {
    if IsAllocated(t) then Ok(t)
    else if names == Some([]) then Err(IndexOutOfBounds)
    else Err(IllegalState("notallocated"))
  }

  /** `isValueAssignableTo`: a term without value is assignable to everything; otherwise
      the value must be assignable to one of the classes. */
  function IsValueAssignableTo<C>(t: RawTerm, classes: seq<C>, assignableFrom: (C, Obj) -> bool): (r: bool)
    ensures t.value == Null ==> r
    ensures t.value != Null ==> (r <==> exists i :: 0 <= i < |classes| && assignableFrom(classes[i], t.value))
  {
    t.value == Null || exists i :: 0 <= i < |classes| && assignableFrom(classes[i], t.value)
  }

  /** `throwValueNotAssignableTo`: the term itself, or an IllegalArgument error. */
  function ThrowValueNotAssignableTo<C>(t: RawTerm, classes: seq<C>, assignableFrom: (C, Obj) -> bool): (r: Result<RawTerm>)
    ensures r.Ok? <==> IsValueAssignableTo(t, classes, assignableFrom)
    ensures r.Ok? ==> r.value == t
  {
    if !IsValueAssignableTo(t, classes, assignableFrom) then Err(IllegalArgument("notassignable")) else Ok(t)
  }

  /** `deepcopy(prefix)`: a new raw term built from the value; the prefix is ignored.
      A value that is itself a raw term or a variable is unwrapped by the constructor. */
  function DeepCopy(t: RawTerm, prefix: seq<Path>, rt: Runtime): (r: RawTerm)
    ensures !t.value.Raw? && !t.value.Var? ==> r.value == t.value
    ensures t.value.Raw? ==> r.value == t.value.term.value
  {
    From(t.value, rt)
  }

  /** `deepcopySuffix`: the same as `deepcopy`. */
  function DeepCopySuffix(t: RawTerm, rt: Runtime): (r: RawTerm)
    ensures !t.value.Raw? && !t.value.Var? ==> r.value == t.value
    ensures forall prefix :: r == DeepCopy(t, prefix, rt)
  {
    From(t.value, rt)
  }

  /** A copy keeps an allocated term's hash code, so it equals the original. */
  lemma DeepCopyEqualsOriginal(t: RawTerm, prefix: seq<Path>, rt: Runtime)
    requires IsAllocated(t) && Consistent(t, rt) && !t.value.Raw? && !t.value.Var?
    ensures Equals(t, Raw(DeepCopy(t, prefix, rt)), rt) == Ok(true)
    ensures Equals(DeepCopy(t, prefix, rt), Raw(t), rt) == Ok(true)
  {
  }

  // ---------------------------------------------------------------- CCommon

  /** `getRawValue`: a variable's or raw term's value; any other object itself. */
  function GetRawValue(o: Obj): (r: Obj)
    ensures o.Var? ==> r == o.value
    ensures o.Raw? ==> r == o.term.value
    ensures !o.Var? && !o.Raw? ==> r == o
  {
    match o
    case Var(_, v) => v
    case Raw(t) => t.value
    case _ => o
  }

  /** Instance variables of an execution context, by fully qualified functor. */
  type Context = map<Path, Obj>

  /** `replaceFromContext(context, term)`: a variable is replaced by the context's
      variable of the same functor, and a variable the context lacks is an error;
      every other term passes unchanged. */
  function ReplaceFromContext(ctx: Context, term: Obj): (r: Result<Obj>)
    ensures !term.Var? ==> r == Ok(term)
    ensures term.Var? && term.functor in ctx ==> r == Ok(ctx[term.functor])
    ensures term.Var? && term.functor !in ctx ==> r.Err? && r.error.IllegalArgument?
  {
    if !term.Var? then Ok(term)
    else if term.functor in ctx then Ok(ctx[term.functor])
    else Err(IllegalArgument("variablenotfoundincontext"))
  }

  /** `replaceFromContext(context, terms)`: the replacement applied element by element,
      in order; the first failing element's error is thrown. */
  function ReplaceAllFromContext(ctx: Context, terms: seq<Obj>): (r: Result<seq<Obj>>)
    ensures r.Ok? ==> |r.value| == |terms|
    ensures r.Ok? ==> forall i :: 0 <= i < |terms| ==> ReplaceFromContext(ctx, terms[i]) == Ok(r.value[i])
    ensures r.Ok? <==> forall i :: 0 <= i < |terms| ==> ReplaceFromContext(ctx, terms[i]).Ok?
  {
    if terms == [] then Ok([])
    else
      match ReplaceFromContext(ctx, terms[0])
      case Err(e) => Err(e)
      case Ok(head) =>
        match ReplaceAllFromContext(ctx, terms[1..])
        case Err(e) => Err(e)
        case Ok(tail) =>
          assert forall i :: 1 <= i < |terms| ==> terms[i] == terms[1..][i - 1];
          Ok([head] + tail)
  }

  /** A context holding every variable of the list makes the replacement succeed. */
  lemma {:induction false} ReplaceAllSucceeds(ctx: Context, terms: seq<Obj>)
    requires forall i :: 0 <= i < |terms| && terms[i].Var? ==> terms[i].functor in ctx
    ensures ReplaceAllFromContext(ctx, terms).Ok?
    ensures forall i :: 0 <= i < |terms| && !terms[i].Var? ==> ReplaceAllFromContext(ctx, terms).value[i] == terms[i]
  {
  }

  function Size(o: Obj): nat
  {
    match o
    case Coll(items, _) => 1 + SizeAll(items)
    case Raw(t) => 1 + Size(t.value)
    case Var(_, v) => 1 + Size(v)
    case Lit(_, args) => 1 + SizeAll(args)
    case _ => 1
  }

  function SizeAll(s: seq<Obj>): nat
  {
    if s == [] then 0 else Size(s[0]) + SizeAll(s[1..])
  }

  lemma RawValueSmaller(o: Obj)
    ensures Size(GetRawValue(o)) <= Size(o)
    ensures GetRawValue(o).Coll? ==> SizeAll(GetRawValue(o).items) < Size(o)
  {
  }

  /** What one element contributes to `flattenToStream`: its raw value, flattened
      recursively when it is a collection, otherwise wrapped as a raw term. This is the
      stream as it is when every cast to `List` succeeds (`ListsOnly`). */
  function FlattenOne(o: Obj, rt: Runtime): (r: seq<RawTerm>)
    ensures !GetRawValue(o).Coll? ==> r == [From(GetRawValue(o), rt)]
    ensures GetRawValue(o).Coll? ==> forall j :: 0 <= j < |GetRawValue(o).items| && !GetRawValue(GetRawValue(o).items[j]).Coll? ==>
      From(GetRawValue(GetRawValue(o).items[j]), rt) in r
    decreases Size(o), 0
  {
    var v := GetRawValue(o);
    RawValueSmaller(o);
    if v.Coll? then Flatten(v.items, rt) else [From(v, rt)]
  }

  /** `flattenToStream`: the elements' contributions, in order. */
  function Flatten(s: seq<Obj>, rt: Runtime): (r: seq<RawTerm>)
    ensures forall i :: 0 <= i < |s| && !GetRawValue(s[i]).Coll? ==> From(GetRawValue(s[i]), rt) in r
    decreases SizeAll(s), 1
  {
    if s == [] then []
    else
      assert forall i :: 1 <= i < |s| ==> s[i] == s[1..][i - 1];
      FlattenOne(s[0], rt) + Flatten(s[1..], rt)
  }

  /** Every collection `flattenToStream` reaches below the element `o` is a `List`, so the
      cast `(List<?>) l_value` applied to it succeeds. */
  predicate ListsOnlyOne(o: Obj)
    decreases Size(o), 0
  {
    var v := GetRawValue(o);
    RawValueSmaller(o);
    v.Coll? ==> v.isList && ListsOnly(v.items)
  }

  /** Every collection `flattenToStream` reaches in the list `s` is a `List`. */
  predicate ListsOnly(s: seq<Obj>)
    decreases SizeAll(s), 1
  {
    s == [] || (ListsOnlyOne(s[0]) && ListsOnly(s[1..]))
  }

  /** `flatList`: the flattened list; a collection reached on the way that is not a `List`
      makes the cast throw ClassCastException. */
  function FlatList(s: seq<Obj>, rt: Runtime): (r: Result<seq<RawTerm>>)
    ensures r.Ok? <==> ListsOnly(s)
    ensures r.Err? ==> r.error == ClassCast
    ensures r.Ok? ==> r.value == Flatten(s, rt)
  {
    if ListsOnly(s) then Ok(Flatten(s, rt)) else Err(ClassCast)
  }

  /** A concatenation casts safely exactly when both parts do. */
  lemma {:induction false} ListsOnlyAppend(a: seq<Obj>, b: seq<Obj>)
    ensures ListsOnly(a + b) <==> ListsOnly(a) && ListsOnly(b)
    decreases |a|
  {
    if a == [] {
      assert a + b == b;
    } else {
      assert (a + b)[0] == a[0];
      assert (a + b)[1..] == a[1..] + b;
      ListsOnlyAppend(a[1..], b);
    }
  }

  /** An object none of whose variables or raw terms (at any depth of collections)
      wraps another variable or raw term. */
  predicate Plain(o: Obj)
    decreases Size(o), 0
  {
    match o
    case Coll(items, _) => AllPlain(items)
    case Raw(t) => !t.value.Raw? && !t.value.Var? && Plain(t.value)
    case Var(_, v) => !v.Raw? && !v.Var? && Plain(v)
    case _ => true
  }

  predicate AllPlain(s: seq<Obj>)
    decreases SizeAll(s), 1
  {
    s == [] || (Plain(s[0]) && AllPlain(s[1..]))
  }

  /** No element of a flattened plain list holds a collection. */
  lemma {:induction false} FlattenHasNoCollections(s: seq<Obj>, rt: Runtime)
    requires AllPlain(s)
    ensures forall i :: 0 <= i < |Flatten(s, rt)| ==> !Flatten(s, rt)[i].value.Coll?
    ensures FlatList(s, rt).Ok? ==> forall i :: 0 <= i < |FlatList(s, rt).value| ==> !FlatList(s, rt).value[i].value.Coll?
    decreases SizeAll(s), 1
  {
    if s != [] {
      FlattenOneHasNoCollections(s[0], rt);
      FlattenHasNoCollections(s[1..], rt);
      var head: seq<RawTerm>, tail: seq<RawTerm> := FlattenOne(s[0], rt), Flatten(s[1..], rt);
      assert Flatten(s, rt) == head + tail;
      forall i | 0 <= i < |head + tail| ensures !(head + tail)[i].value.Coll? {
        if i >= |head| { assert (head + tail)[i] == tail[i - |head|]; }
        else {
          assert (head + tail)[i] == head[i];
          assert !FlattenOne(s[0], rt)[i].value.Coll?;
        }
      }
    }
  }

  lemma {:induction false} FlattenOneHasNoCollections(o: Obj, rt: Runtime)
    requires Plain(o)
    ensures forall i :: 0 <= i < |FlattenOne(o, rt)| ==> !FlattenOne(o, rt)[i].value.Coll?
    decreases Size(o), 0
  {
    var v := GetRawValue(o);
    RawValueSmaller(o);
    if v.Coll? {
      assert AllPlain(v.items);
      FlattenHasNoCollections(v.items, rt);
      assert FlattenOne(o, rt) == Flatten(v.items, rt);
    } else {
      assert !v.Raw? && !v.Var?;
      assert FlattenOne(o, rt) == [From(v, rt)];
    }
  }

  /** A variable whose value is a raw term over a list is not flattened: `getRawValue`
      unwraps one level only, and the raw term built from the inner raw term takes over
      its list value. */
  lemma NestedTermKeepsCollection(rt: Runtime)
    ensures var inner := From(Coll([Host("a")], true), rt);
            var flat := FlatList([Var(["x"], Raw(inner))], rt);
            flat.Ok? && |flat.value| == 1 && flat.value[0].value.Coll?
  {
    var inner := From(Coll([Host("a")], true), rt);
    var s := [Var(["x"], Raw(inner))];
    assert ListsOnlyOne(s[0]);
    assert ListsOnly(s[1..]);
    assert FlattenOne(s[0], rt) == [From(Raw(inner), rt)];
    assert Flatten(s, rt) == FlattenOne(s[0], rt) + Flatten(s[1..], rt);
  }

  /** Flattening keeps order: flattening a concatenation concatenates the flattenings. */
  lemma {:induction false} FlattenAppend(a: seq<Obj>, b: seq<Obj>, rt: Runtime)
    ensures Flatten(a + b, rt) == Flatten(a, rt) + Flatten(b, rt)
    decreases |a|
  {
    if a == [] {
      assert a + b == b;
    } else {
      assert (a + b)[0] == a[0];
      assert (a + b)[1..] == a[1..] + b;
      FlattenAppend(a[1..], b, rt);
      calc {
        Flatten(a + b, rt);
        FlattenOne(a[0], rt) + Flatten(a[1..] + b, rt);
        FlattenOne(a[0], rt) + (Flatten(a[1..], rt) + Flatten(b, rt));
        (FlattenOne(a[0], rt) + Flatten(a[1..], rt)) + Flatten(b, rt);
      }
    }
  }

  /** A list without collection values flattens to its elements, one raw term each. */
  lemma {:induction false} FlattenFlatList(s: seq<Obj>, rt: Runtime)
    requires forall i :: 0 <= i < |s| ==> !GetRawValue(s[i]).Coll?
    ensures FlatList(s, rt).Ok?
    ensures |FlatList(s, rt).value| == |s|
    ensures forall i :: 0 <= i < |s| ==> FlatList(s, rt).value[i] == From(GetRawValue(s[i]), rt)
    decreases |s|
  {
    if s != [] {
      FlattenFlatList(s[1..], rt);
      assert forall i :: 1 <= i < |s| ==> s[i] == s[1..][i - 1];
      assert ListsOnlyOne(s[0]);
      assert FlattenOne(s[0], rt) == [From(GetRawValue(s[0]), rt)];
      assert Flatten(s, rt) == FlattenOne(s[0], rt) + Flatten(s[1..], rt);
    }
  }

  /** A `List` element is replaced in place by its own elements; the result, or the
      ClassCastException, is that of the spliced list. */
  lemma CollectionSpliced(a: seq<Obj>, items: seq<Obj>, b: seq<Obj>, rt: Runtime)
    ensures FlatList(a + [Coll(items, true)] + b, rt) == FlatList(a + items + b, rt)
  {
    var c := [Coll(items, true)];
    FlattenAppend(a + c, b, rt);
    FlattenAppend(a, c, rt);
    FlattenAppend(a + items, b, rt);
    FlattenAppend(a, items, rt);
    assert Flatten(c, rt) == FlattenOne(c[0], rt) + Flatten([], rt);
    assert Flatten(c, rt) == Flatten(items, rt);
    assert Flatten(a + c + b, rt) == Flatten(a + items + b, rt);
    ListsOnlyAppend(a + c, b);
    ListsOnlyAppend(a, c);
    ListsOnlyAppend(a + items, b);
    ListsOnlyAppend(a, items);
    assert ListsOnly(c) == ListsOnlyOne(c[0]);
  }

  /** A collection that is not a `List`, anywhere in the list, makes `flatList` throw. */
  lemma OtherCollectionThrows(a: seq<Obj>, items: seq<Obj>, b: seq<Obj>, rt: Runtime)
    ensures FlatList(a + [Coll(items, false)] + b, rt) == Err(ClassCast)
  {
    var c := [Coll(items, false)];
    ListsOnlyAppend(a + c, b);
    ListsOnlyAppend(a, c);
    assert !ListsOnlyOne(c[0]);
  }

  /** UTF-8 encoding of one character (String.getBytes("UTF-8")). */
  function EncodeChar(c: char): (r: seq<byte>)
    ensures 1 <= |r| <= 4
    ensures (c as int < 0x80) <==> |r| == 1
  {
    var n := c as int;
    if n < 0x80 then [n as byte]
    else if n < 0x800 then [(0xC0 + n / 0x40) as byte, (0x80 + n % 0x40) as byte]
    else if n < 0x10000 then [(0xE0 + n / 0x1000) as byte, (0x80 + (n / 0x40) % 0x40) as byte, (0x80 + n % 0x40) as byte]
    else [(0xF0 + n / 0x40000) as byte, (0x80 + (n / 0x1000) % 0x40) as byte,
          (0x80 + (n / 0x40) % 0x40) as byte, (0x80 + n % 0x40) as byte]
  }

  function EncodeUtf8(s: string): seq<byte>
  {
    if s == [] then [] else EncodeChar(s[0]) + EncodeUtf8(s[1..])
  }

  lemma {:induction false} EncodeUtf8Append(a: string, b: string)
    ensures EncodeUtf8(a + b) == EncodeUtf8(a) + EncodeUtf8(b)
  {
    if a == [] {
      assert a + b == b;
    } else {
      assert (a + b)[0] == a[0];
      assert (a + b)[1..] == a[1..] + b;
      EncodeUtf8Append(a[1..], b);
      assert EncodeUtf8(a + b) == EncodeChar(a[0]) + EncodeUtf8(a[1..] + b);
    }
  }

  /** An ASCII text encodes to one byte per character, each the character's code. */
  lemma {:induction false} EncodeAscii(s: string)
    requires forall i :: 0 <= i < |s| ==> s[i] as int < 0x80
    ensures |EncodeUtf8(s)| == |s|
    ensures forall i :: 0 <= i < |s| ==> EncodeUtf8(s)[i] as int == s[i] as int
  {
    if s != [] {
      EncodeAscii(s[1..]);
      assert forall i :: 1 <= i < |s| ==> s[i] == s[1..][i - 1];
    }
  }

  /** The text `getBytes` appends: each flattened raw value's `toString`, in order;
      a `null` value throws when its `toString` is called. */
  function Concatenated(flat: seq<RawTerm>, rt: Runtime): (r: Result<string>)
    ensures r.Ok? <==> forall i :: 0 <= i < |flat| ==> flat[i].value != Null
  {
    if flat == [] then Ok("")
    else if flat[0].value == Null then Err(NullPointer)
    else
      match Concatenated(flat[1..], rt)
      case Err(e) => Err(e)
      case Ok(tail) =>
        assert forall i :: 1 <= i < |flat| ==> flat[i] == flat[1..][i - 1];
        Ok(rt.text(flat[0].value) + tail)
  }

  /** `getBytes`: the UTF-8 bytes of the concatenated texts of the flattened list; the
      ClassCastException of `flatList` comes first. */
  function GetBytes(s: seq<Obj>, rt: Runtime): (r: Result<seq<byte>>)
    ensures !ListsOnly(s) ==> r == Err(ClassCast)
    ensures r.Ok? <==> ListsOnly(s) && Concatenated(Flatten(s, rt), rt).Ok?
    ensures r.Ok? ==> r.value == EncodeUtf8(Concatenated(Flatten(s, rt), rt).value)
  {
    match FlatList(s, rt)
    case Err(e) => Err(e)
    case Ok(flat) =>
      match Concatenated(flat, rt)
      case Err(e) => Err(e)
      case Ok(text) => Ok(EncodeUtf8(text))
  }

  /** The bytes of two lists are the bytes of each, concatenated. */
  lemma {:induction false} GetBytesAppend(a: seq<Obj>, b: seq<Obj>, rt: Runtime)
    requires GetBytes(a, rt).Ok? && GetBytes(b, rt).Ok?
    ensures GetBytes(a + b, rt) == Ok(GetBytes(a, rt).value + GetBytes(b, rt).value)
  {
    FlattenAppend(a, b, rt);
    ListsOnlyAppend(a, b);
    var fa, fb := Flatten(a, rt), Flatten(b, rt);
    ConcatenatedAppend(fa, fb, rt);
    EncodeUtf8Append(Concatenated(fa, rt).value, Concatenated(fb, rt).value);
  }

  lemma {:induction false} ConcatenatedAppend(a: seq<RawTerm>, b: seq<RawTerm>, rt: Runtime)
    requires Concatenated(a, rt).Ok? && Concatenated(b, rt).Ok?
    ensures Concatenated(a + b, rt) == Ok(Concatenated(a, rt).value + Concatenated(b, rt).value)
    decreases |a|
  {
    if a == [] {
      assert a + b == b;
      assert Concatenated(a, rt).value == "";
      assert "" + Concatenated(b, rt).value == Concatenated(b, rt).value;
    } else {
      assert (a + b)[0] == a[0];
      assert (a + b)[1..] == a[1..] + b;
      assert a[0].value != Null;
      ConcatenatedAppend(a[1..], b, rt);
      var head := rt.text(a[0].value);
      var ta, tab := Concatenated(a[1..], rt).value, Concatenated(a[1..] + b, rt).value;
      assert Concatenated(a, rt) == Ok(head + ta);
      assert Concatenated(a + b, rt) == Ok(head + tab);
      assert tab == ta + Concatenated(b, rt).value;
      assert head + (ta + Concatenated(b, rt).value) == (head + ta) + Concatenated(b, rt).value;
    }
  }
}
