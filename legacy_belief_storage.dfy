/** The belief storage of the legacy `lightjason.beliefbase` package: a map from a
    string key to a set of elements ("multi elements") beside a map from a string
    key to one element ("single elements"), both updated in place. */
module LegacyBeliefStorage {

  import opened Wrappers

  /** Every element of every multi-element set, once per key that holds it. */
  ghost function Bag<N>(m: map<string, set<N>>): multiset<N>
    decreases |m|
  {
    if m == map[] then multiset{}
    else
      var k :| k in m;
      multiset(m[k]) + Bag(m - {k})
  }

  /** Bag does not depend on which key it picks first. */
  lemma {:induction false} BagRemove<N>(m: map<string, set<N>>, k: string)
    requires k in m
    ensures Bag(m) == multiset(m[k]) + Bag(m - {k})
    decreases |m|
  {
    var j :| j in m && Bag(m) == multiset(m[j]) + Bag(m - {j});
    if j != k {
      var rest := m - {j};
      assert k in rest;
      BagRemove(rest, k);
      assert rest - {k} == (m - {k}) - {j};
      assert j in m - {k};
      BagRemove(m - {k}, j);
    }
  }

  /** An element occurs in Bag(m) exactly as often as there are keys whose set holds it. */
  lemma {:induction false} BagCount<N>(m: map<string, set<N>>, e: N)
    ensures Bag(m)[e] == |set k | k in m && e in m[k]|
    decreases |m|
  {
    var holders := set k | k in m && e in m[k];
    if m == map[] {
      assert holders == {};
    } else {
      var k :| k in m;
      BagRemove(m, k);
      BagCount(m - {k}, e);
      var rest := set j | j in m - {k} && e in (m - {k})[j];
      if e in m[k] {
        assert holders == rest + {k};
      } else {
        assert holders == rest;
      }
    }
  }

  /** Sum of the sizes of the sets a multi-element map holds. */
  ghost function SumOfSizes<N>(m: map<string, set<N>>): nat
  {
    |Bag(m)|
  }

  lemma {:induction false} SumOfSizesEmpty<N>(m: map<string, set<N>>)
    ensures SumOfSizes(m) == 0 <==> forall k :: k in m ==> m[k] == {}
  {
    if SumOfSizes(m) == 0 {
      forall k | k in m ensures m[k] == {} {
        BagRemove(m, k);
      }
    } else {
      var e :| e in Bag(m);
      BagCount(m, e);
      var holders := set k | k in m && e in m[k];
      assert holders != {};
      var k :| k in holders;
      assert e in m[k];
    }
  }

  class BeliefStorage<N(==), M> {
    /** m_multielements */
    var multi: map<string, set<N>>
    /** m_singleelements */
    var single: map<string, M>

    constructor ()
      ensures multi == map[] && single == map[]
    {
      multi := map[];
      single := map[];
    }

    /** The set an absent key would get: `getOrDefault` with a fresh empty set. */
    function MultiOrEmpty(k: string): (s: set<N>)
      reads this
      ensures k !in multi ==> s == {}
      ensures k in multi ==> s == multi[k]
    {
      if k in multi then multi[k] else {}
    }

    /** `addMultiElement`: the element joins the key's set, creating the set on first use. */
    method AddMultiElement(k: string, e: N)
      modifies this
      ensures multi == old(multi)[k := old(MultiOrEmpty(k)) + {e}]
      ensures single == old(single)
      ensures ContainsMultiElement(k) && e in multi[k]
    {
      var elements := MultiOrEmpty(k);
      if k !in multi {
        multi := multi[k := elements];
      }
      multi := multi[k := multi[k] + {e}];
    }

    /** `addSingleElement`: `put` replaces any earlier value of the key. */
    method AddSingleElement(k: string, e: M)
      modifies this
      ensures single == old(single)[k := e]
      ensures multi == old(multi)
    {
      single := single[k := e];
    }

    method Clear()
      modifies this
      ensures multi == map[] && single == map[]
      ensures IsEmpty()
    {
      multi := map[];
      single := map[];
    }

    /** `contains`: the key has a multi entry or a single entry. */
    predicate Contains(k: string): (r: bool)
      reads this
      ensures r <==> GetMultiElement(k).Some? || GetSingleElement(k).Some?
    {
      k in multi || k in single
    }

    /** False for an absent key and for a key whose set has become empty. */
    predicate ContainsMultiElement(k: string): (r: bool)
      reads this
      ensures r <==> GetMultiElement(k).Some? && GetMultiElement(k).value != {}
      ensures r ==> Contains(k)
    {
      k in multi && multi[k] != {}
    }

    predicate ContainsSingleElement(k: string): (r: bool)
      reads this
      ensures r <==> GetSingleElement(k).Some?
      ensures r ==> Contains(k)
    {
      k in single
    }

    /** `getMultiElement`: `null` for an absent key. */
    function GetMultiElement(k: string): (r: Option<set<N>>)
      reads this
      ensures r.Some? <==> k in multi
      ensures r.Some? ==> r.value == multi[k]
    {
      if k in multi then Some(multi[k]) else None
    }

    /** `getSingleElement`: `null` for an absent key. */
    function GetSingleElement(k: string): (r: Option<M>)
      reads this
      ensures r.Some? <==> k in single
      ensures r.Some? ==> r.value == single[k]
    {
      if k in single then Some(single[k]) else None
    }

    /** `isEmpty`: both maps are empty; the witness keys show that no key is contained
        exactly then. */
    predicate IsEmpty(): (r: bool)
      reads this
      ensures r <==> forall k :: !Contains(k)
    {
      if multi != map[] then
        var k :| k in multi;
        assert Contains(k);
        false
      else if single != map[] then
        var k :| k in single;
        assert Contains(k);
        false
      else
        true
    }

    /** `remove`: the `||` stops after a removed single entry, so the multi entry
        of the same key survives in that case. */
    method Remove(k: string) returns (removed: bool)
      modifies this
      ensures k in old(single) ==> removed && single == old(single) - {k} && multi == old(multi)
      ensures k !in old(single) ==> removed == (k in old(multi)) && single == old(single) && multi == old(multi) - {k}
    {
      if k in single {
        single := single - {k};
        removed := true;
      } else {
        removed := k in multi;
        multi := multi - {k};
      }
    }

    /** `removeMultiElement`: false for an absent key; otherwise whether the element
        was in the key's set. The key stays mapped even when its set empties. */
    method RemoveMultiElement(k: string, e: N) returns (removed: bool)
      modifies this
      ensures k !in old(multi) ==> !removed && multi == old(multi)
      ensures k in old(multi) ==> removed == (e in old(multi)[k]) && multi == old(multi)[k := old(multi)[k] - {e}]
      ensures k in old(multi) && old(multi)[k] <= {e} ==> k in multi && !ContainsMultiElement(k)
      ensures single == old(single)
    {
      if k !in multi {
        return false;
      }
      removed := e in multi[k];
      multi := multi[k := multi[k] - {e}];
    }

    method RemoveSingleElement(k: string) returns (removed: bool)
      modifies this
      ensures removed == (k in old(single))
      ensures single == old(single) - {k} && multi == old(multi)
    {
      removed := k in single;
      single := single - {k};
    }

    /** The summing loop of `sizeMultiElement`: the number of elements over all sets. */
    method SumMultiElementSizes() returns (sum: nat)
      ensures sum == SumOfSizes(multi)
    {
      sum := 0;
      var rest := multi;
      while rest != map[]
        invariant rest.Keys <= multi.Keys
        invariant forall k :: k in rest ==> rest[k] == multi[k]
        invariant sum + SumOfSizes(rest) == SumOfSizes(multi)
        decreases |rest|
      {
        var k :| k in rest;
        BagRemove(rest, k);
        sum := sum + |rest[k]|;
        rest := rest - {k};
      }
    }

    /** `sizeMultiElement` as written: the loop sums the set sizes, then 0 is returned. */
    method SizeMultiElement() returns (r: int)
      ensures r == 0
    {
      var sum := SumMultiElementSizes();
      r := 0;
    }

    /** `sizeSingleElement` as written: it counts the keys of the multi-element map. */
    method SizeSingleElement() returns (r: int)
      ensures r == |multi|
    {
      r := |multi|;
    }

    /** `size` as written: the two size methods added. */
    method Size() returns (r: int)
      ensures r == |multi|
    {
      var m := SizeMultiElement();
      var s := SizeSingleElement();
      r := m + s;
    }

    /** What `sizeMultiElement` evidently means to return: the summed set sizes. */
    method SizeMultiElementIntended() returns (r: nat)
      ensures r == SumOfSizes(multi)
      ensures r == 0 <==> forall k :: k in multi ==> multi[k] == {}
    {
      r := SumMultiElementSizes();
      SumOfSizesEmpty(multi);
    }

    /** What `sizeSingleElement` evidently means to return: the number of single entries. */
    method SizeSingleElementIntended() returns (r: nat)
      ensures r == |single|
      ensures r == 0 <==> single == map[]
    {
      r := |single|;
    }
  }

  /** The elements still to come from a stack of set iterators: the top (last)
      iterator first, then the ones beneath it. */
  function TopFirst<N>(stack: seq<seq<N>>): seq<N>
  {
    if stack == [] then [] else stack[|stack| - 1] + TopFirst(stack[..|stack| - 1])
  }

  /** Pushing an iterator puts its elements in front of everything below it. */
  lemma TopFirstPush<N>(stack: seq<seq<N>>, items: seq<N>)
    ensures TopFirst(stack + [items]) == items + TopFirst(stack)
    ensures multiset(TopFirst(stack + [items])) == multiset(items) + multiset(TopFirst(stack))
  {
    assert (stack + [items])[..|stack|] == stack;
  }

  /** One pass over a set in some iteration order: every element exactly once. */
  method EnumerateSet<N(==)>(s: set<N>) returns (r: seq<N>)
    ensures multiset(r) == multiset(s)
  {
    r := [];
    var rest := s;
    while rest != {}
      invariant rest <= s
      invariant multiset(r) + multiset(rest) == multiset(s)
      decreases |rest|
    {
      var x :| x in rest;
      assert multiset(rest) == multiset(rest - {x}) + multiset{x};
      r := r + [x];
      rest := rest - {x};
    }
  }

  /** The anonymous iterator of `iteratorMultiElement`: a stack holding one iterator per
      multi-element set, whose exhausted top is popped by `hasNext`. */
  class MultiElementIterator<N(==)> {
    /** What each stacked iterator has still to yield; the last entry is the top. */
    var stack: seq<seq<N>>
    /** Everything the iterator yields, in order, fixed when it is created. */
    ghost const all: seq<N>
    /** What `next` has returned so far. */
    ghost var yielded: seq<N>

    ghost function Remaining(): seq<N>
      reads this
    {
      TopFirst(stack)
    }

    ghost predicate Valid()
      reads this
    {
      yielded + Remaining() == all
    }

    /** Stacks an iterator over each set of the multi-element map, in the map's iteration order. */
    constructor (multi: map<string, set<N>>)
      ensures Valid() && yielded == []
      ensures |stack| == |multi|
      ensures multiset(all) == Bag(multi)
    {
      var st: seq<seq<N>> := [];
      var rest := multi;
      while rest != map[]
        invariant rest.Keys <= multi.Keys
        invariant forall k :: k in rest ==> rest[k] == multi[k]
        invariant |st| + |rest| == |multi|
        invariant multiset(TopFirst(st)) + Bag(rest) == Bag(multi)
        decreases |rest|
      {
        var k :| k in rest;
        BagRemove(rest, k);
        var items := EnumerateSet(rest[k]);
        TopFirstPush(st, items);
        st := st + [items];
        rest := rest - {k};
      }
      stack := st;
      all := TopFirst(st);
      yielded := [];
    }

    /** `hasNext`: pops exhausted iterators off the top, then reports whether any is left. */
    method HasNext() returns (more: bool)
      requires Valid()
      modifies this
      ensures Valid() && yielded == old(yielded) && Remaining() == old(Remaining())
      ensures more <==> Remaining() != []
      ensures more ==> stack[|stack| - 1] != []
    {
      while stack != [] && stack[|stack| - 1] == []
        invariant Valid() && yielded == old(yielded) && Remaining() == old(Remaining())
        decreases |stack|
      {
        assert TopFirst(stack) == TopFirst(stack[..|stack| - 1]);
        stack := stack[..|stack| - 1];
      }
      more := stack != [];
    }

    /** `next`: the top iterator's next element; the empty stack and an exhausted top
        iterator throw. */
    method Next() returns (r: Result<N>)
      requires Valid()
      modifies this
      ensures Valid()
      ensures old(stack) == [] ==> r == Err(EmptyStack) && stack == old(stack)
      ensures old(stack) != [] && old(stack[|stack| - 1]) == [] ==> r == Err(NoSuchElement("iterator exhausted")) && stack == old(stack)
      ensures old(stack) != [] && old(stack[|stack| - 1]) != [] ==> r.Ok?
      ensures r.Ok? ==> old(Remaining()) != [] && r.value == old(Remaining())[0]
                        && Remaining() == old(Remaining())[1..] && yielded == old(yielded) + [r.value]
      ensures r.Err? ==> yielded == old(yielded) && Remaining() == old(Remaining())
    {
      if stack == [] {
        return Err(EmptyStack);
      }
      var top := stack[|stack| - 1];
      if top == [] {
        return Err(NoSuchElement("iterator exhausted"));
      }
      var below := stack[..|stack| - 1];
      assert Remaining() == top + TopFirst(below);
      stack := below + [top[1..]];
      assert stack[..|stack| - 1] == below;
      assert Remaining() == top[1..] + TopFirst(below);
      yielded := yielded + [top[0]];
      r := Ok(top[0]);
    }
  }

  /** Draining the iterator yields every element of every multi-element set, each once
      for every key whose set holds it. */
  method DrainMultiElements<N(==), M>(storage: BeliefStorage<N, M>) returns (out: seq<N>)
    ensures multiset(out) == Bag(storage.multi)
    ensures forall e :: multiset(out)[e] == |set k | k in storage.multi && e in storage.multi[k]|
  {
    var it := new MultiElementIterator(storage.multi);
    out := [];
    var more := it.HasNext();
    while more
      invariant it.Valid() && it.yielded == out
      invariant more <==> it.Remaining() != []
      invariant more ==> it.stack[|it.stack| - 1] != []
      decreases |it.Remaining()|
    {
      var r := it.Next();
      out := out + [r.value];
      more := it.HasNext();
    }
    assert out == it.all;
    forall e ensures multiset(out)[e] == |set k | k in storage.multi && e in storage.multi[k]| {
      BagCount(storage.multi, e);
    }
  }

  /** Both size methods as written disagree with the contents on a storage holding one
      multi element and no single element: they report 0 multi and 1 single element,
      where 1 and 0 are meant. */
  method SizeCounterexample() returns (multiAsWritten: int, multiIntended: nat, singleAsWritten: int, singleIntended: nat)
    ensures multiAsWritten == 0 && multiIntended == 1
    ensures singleAsWritten == 1 && singleIntended == 0
  {
    var s := new BeliefStorage<int, int>();
    assert s.MultiOrEmpty("k") == {};
    s.AddMultiElement("k", 7);
    assert "k" in s.multi && s.multi["k"] == {} + {7} == {7};
    assert s.multi.Keys == {"k"};
    BagRemove(s.multi, "k");
    assert (s.multi - {"k"}).Keys == {};
    assert s.multi - {"k"} == map[];
    multiAsWritten := s.SizeMultiElement();
    singleAsWritten := s.SizeSingleElement();
    multiIntended := s.SizeMultiElementIntended();
    singleIntended := s.SizeSingleElementIntended();
  }
}
