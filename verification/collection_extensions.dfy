/**
 * `ICollectionExtensions`: conditional and de-duplicating insertion into a
 * collection that is changed in place.
 */
module CollectionExtensions {
  import opened Sequences

  /** A `List<T>`-like `ICollection<T>`: its elements in insertion order; `Add` always appends. */
  class Collection<T(==)> {
    var items: seq<T>

    constructor (items: seq<T>)
      ensures this.items == items
    {
      this.items := items;
    }

    predicate Contains(x: T)
      reads this
    {
      x in items
    }

    method Add(x: T)
      modifies this
      ensures items == old(items) + [x]
    {
      items := items + [x];
    }
  }

  /** The contents after adding `v` unless it is already there. */
  function Adjoin<T(==)>(xs: seq<T>, v: T): seq<T> {
    if v in xs then xs else xs + [v]
  }

  /** The contents after adjoining each of `vs` in turn, each seeing the ones added before it. */
  function AdjoinAll<T(==)>(xs: seq<T>, vs: seq<T>): (r: seq<T>)
    ensures xs <= r
    ensures forall v :: v in vs ==> v in r
    ensures forall x :: x in r ==> x in xs || x in vs
    decreases |vs|
  {
    if vs == [] then xs
    else
      var init, last := vs[..|vs| - 1], vs[|vs| - 1];
      assert vs == init + [last];
      Adjoin(AdjoinAll(xs, init), last)
  }

  /**
   * The part `AdjoinAll` adds holds each value of `vs` that was not already
   * present exactly once, and nothing else.
   */
  lemma {:induction false} AdjoinAllAddsEachOnce<T>(xs: seq<T>, vs: seq<T>)
    ensures var added := AdjoinAll(xs, vs)[|xs|..];
            NoDuplicates(added) && (forall v :: v in added ==> v in vs && v !in xs)
            && (forall v :: v in vs && v !in xs ==> v in added)
    decreases |vs|
  {
    if vs != [] {
      var init, last := vs[..|vs| - 1], vs[|vs| - 1];
      assert vs == init + [last];
      AdjoinAllAddsEachOnce(xs, init);
      var before := AdjoinAll(xs, init);
      assert before == xs + before[|xs|..];
      if last !in before {
        assert AdjoinAll(xs, vs)[|xs|..] == before[|xs|..] + [last];
      }
    }
  }

  /** A duplicate-free collection stays duplicate-free. */
  lemma AdjoinAllKeepsNoDuplicates<T>(xs: seq<T>, vs: seq<T>)
    requires NoDuplicates(xs)
    ensures NoDuplicates(AdjoinAll(xs, vs))
  {
    AdjoinAllAddsEachOnce(xs, vs);
    var r := AdjoinAll(xs, vs);
    var added := r[|xs|..];
    assert r == xs + added;
    forall i, j | 0 <= i < j < |r| ensures r[i] != r[j] {
      if j >= |xs| {
        assert r[j] == added[j - |xs|];
        if i >= |xs| {
          assert r[i] == added[i - |xs|];
        } else {
          assert r[i] == xs[i];
        }
      }
    }
  }

  /** Values all present already add nothing. */
  lemma {:induction false} AdjoinAllPresent<T>(xs: seq<T>, vs: seq<T>)
    requires forall v :: v in vs ==> v in xs
    ensures AdjoinAll(xs, vs) == xs
    decreases |vs|
  {
    if vs != [] {
      var init := vs[..|vs| - 1];
      assert vs == init + [vs[|vs| - 1]];
      AdjoinAllPresent(xs, init);
    }
  }

  /** Adding the same range again changes nothing. */
  lemma AdjoinAllIdempotent<T>(xs: seq<T>, vs: seq<T>)
    ensures AdjoinAll(AdjoinAll(xs, vs), vs) == AdjoinAll(xs, vs)
  {
    AdjoinAllPresent(AdjoinAll(xs, vs), vs);
  }

  /** `AddIf`: appends `value` and returns true exactly when `func(value)` holds. */
  method AddIf<T(==)>(values: Collection<T>, func: T -> bool, value: T) returns (added: bool)
    modifies values
    ensures added == func(value)
    ensures values.items == if added then old(values.items) + [value] else old(values.items)
  {
    if func(value) {
      values.Add(value);
      return true;
    }
    return false;
  }

  /** `AddOrIgnore`: appends `value` and returns true exactly when it was not contained. */
  method AddOrIgnore<T(==)>(c: Collection<T>, value: T) returns (added: bool)
    modifies c
    ensures added == (value !in old(c.items))
    ensures c.items == Adjoin(old(c.items), value)
    ensures value in c.items && old(c.items) <= c.items
  {
    if !c.Contains(value) {
      c.Add(value);
      return true;
    }
    return false;
  }

  /** The first `AddOrIgnore` reports whether the value was new; a second one of the same value returns false and changes nothing. */
  method AddOrIgnoreTwice<T(==)>(c: Collection<T>, value: T) returns (first: bool, second: bool)
    modifies c
    ensures first == (value !in old(c.items)) && !second
    ensures c.items == Adjoin(old(c.items), value)
  {
    first := AddOrIgnore(c, value);
    second := AddOrIgnore(c, value);
  }

  /** `AddRangeIfNotContains`: each value is added unless the growing collection already has it. */
  method AddRangeIfNotContains<T(==)>(c: Collection<T>, values: seq<T>)
    modifies c
    ensures c.items == AdjoinAll(old(c.items), values)
  {
    for i := 0 to |values|
      invariant c.items == AdjoinAll(old(c.items), values[..i])
    {
      assert values[..i + 1] == values[..i] + [values[i]];
      if !c.Contains(values[i]) {
        c.Add(values[i]);
      }
    }
    assert values[..|values|] == values;
  }

  /** `AddRangeIf`: appends exactly the values satisfying the predicate, in order. */
  method AddRangeIf<T(==)>(c: Collection<T>, test: T -> bool, values: seq<T>)
    modifies c
    ensures c.items == old(c.items) + Filter(values, test)
  {
    for i := 0 to |values|
      invariant c.items == old(c.items) + Filter(values[..i], test)
    {
      assert values[..i + 1] == values[..i] + [values[i]];
      FilterSnoc(values[..i], values[i], test);
      if test(values[i]) {
        c.Add(values[i]);
      }
    }
    assert values[..|values|] == values;
  }

  /** `AddRange`: appends every value, in order. */
  method AddRange<T(==)>(c: Collection<T>, values: seq<T>)
    modifies c
    ensures c.items == old(c.items) + values
  {
    for i := 0 to |values|
      invariant c.items == old(c.items) + values[..i]
    {
      assert values[..i + 1] == values[..i] + [values[i]];
      c.Add(values[i]);
    }
    assert values[..|values|] == values;
  }
}
