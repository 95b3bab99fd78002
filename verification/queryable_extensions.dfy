/**
 * `QueryableExtensions`: append a filter, eager-load or no-tracking stage to a
 * query only when a condition holds, otherwise hand back the source query.
 */
module QueryableExtensions {
  import opened Sequences
  import opened Queryables

  /**
   * The three shapes a condition is given in: a `bool`, a `Func<bool>` invoked
   * at composition time, and an `Expression<Func<bool>>` compiled and invoked at
   * composition time. A delegate is modelled by the value function it computes.
   */
  datatype Condition =
    | Flag(value: bool)
    | Delegate(invoke: () -> bool)
    | Expression(compiled: () -> bool)

  /** The boolean the condition yields when the helper evaluates it. */
  function Holds(condition: Condition): bool {
    match condition
    case Flag(b) => b
    case Delegate(f) => f()
    case Expression(e) => e()
  }

  /** `WhereIf` with a plain expression (all three condition shapes). */
  function WhereIf<T>(source: Query<T>, condition: Condition, expression: T -> bool): (r: Query<T>)
    ensures r.source == source.source && source.stages <= r.stages
    ensures !Holds(condition) ==> r == source
    ensures Holds(condition) ==> r.stages[|source.stages|..] == [Where(expression)]
  {
    if Holds(condition) then Compose(source, Where(expression)) else source
  }

  /** `WhereIf` with an index-aware expression (all three condition shapes). */
  function WhereIfIndexed<T>(source: Query<T>, condition: Condition, expression: (T, nat) -> bool): (r: Query<T>)
    ensures r.source == source.source && source.stages <= r.stages
    ensures !Holds(condition) ==> r == source
    ensures Holds(condition) ==> r.stages[|source.stages|..] == [WhereIndexed(expression)]
  {
    if Holds(condition) then Compose(source, WhereIndexed(expression)) else source
  }

  /** `IncludeIf` (all three condition shapes). */
  function IncludeIf<T>(source: Query<T>, condition: Condition, navigation: string): (r: Query<T>)
    ensures r.source == source.source && source.stages <= r.stages
    ensures !Holds(condition) ==> r == source
    ensures Holds(condition) ==> r.stages[|source.stages|..] == [Include(navigation)]
  {
    if Holds(condition) then Compose(source, Include(navigation)) else source
  }

  /** `AsNoTrackingIf` (all three condition shapes). */
  function AsNoTrackingIf<T>(source: Query<T>, condition: Condition): (r: Query<T>)
    ensures r.source == source.source && source.stages <= r.stages
    ensures !Holds(condition) ==> r == source
    ensures Holds(condition) ==> r.stages[|source.stages|..] == [AsNoTracking]
  {
    if Holds(condition) then Compose(source, AsNoTracking) else source
  }

  /** The delegate and expression overloads agree with the `bool` overload given the value they yield. */
  lemma ConditionShapesAgree<T>(source: Query<T>, f: () -> bool, expression: T -> bool, indexed: (T, nat) -> bool, navigation: string)
    ensures WhereIf(source, Delegate(f), expression) == WhereIf(source, Flag(f()), expression)
    ensures WhereIf(source, Expression(f), expression) == WhereIf(source, Flag(f()), expression)
    ensures WhereIfIndexed(source, Delegate(f), indexed) == WhereIfIndexed(source, Flag(f()), indexed)
    ensures WhereIfIndexed(source, Expression(f), indexed) == WhereIfIndexed(source, Flag(f()), indexed)
    ensures IncludeIf(source, Delegate(f), navigation) == IncludeIf(source, Flag(f()), navigation)
    ensures IncludeIf(source, Expression(f), navigation) == IncludeIf(source, Flag(f()), navigation)
    ensures AsNoTrackingIf(source, Delegate(f)) == AsNoTrackingIf(source, Flag(f()))
    ensures AsNoTrackingIf(source, Expression(f)) == AsNoTrackingIf(source, Flag(f()))
  {
  }

  /**
   * Executed, `WhereIf` yields exactly the source results satisfying the
   * expression, in order, when the condition holds, and the source results otherwise.
   */
  lemma WhereIfMaterialize<T>(source: Query<T>, condition: Condition, expression: T -> bool)
    ensures Materialize(WhereIf(source, condition, expression))
         == if Holds(condition) then Filter(Materialize(source), expression) else Materialize(source)
    ensures forall x :: x in Materialize(WhereIf(source, condition, expression)) ==> x in Materialize(source)
  {
    if Holds(condition) {
      MaterializeCompose(source, Where(expression));
    }
  }

  /** Executed, the index-aware `WhereIf` keeps the results `x` at position `i` with `expression(x, i)`. */
  lemma WhereIfIndexedMaterialize<T>(source: Query<T>, condition: Condition, expression: (T, nat) -> bool)
    ensures Materialize(WhereIfIndexed(source, condition, expression))
         == if Holds(condition) then FilterIndexed(Materialize(source), expression) else Materialize(source)
  {
    if Holds(condition) {
      MaterializeCompose(source, WhereIndexed(expression));
    }
  }

  /** An index-aware expression that ignores the index filters like the plain overload. */
  lemma WhereIfIndexedIgnoringIndex<T>(source: Query<T>, condition: Condition, indexed: (T, nat) -> bool, expression: T -> bool)
    requires forall x, i: nat :: indexed(x, i) == expression(x)
    ensures Materialize(WhereIfIndexed(source, condition, indexed)) == Materialize(WhereIf(source, condition, expression))
  {
    WhereIfIndexedMaterialize(source, condition, indexed);
    WhereIfMaterialize(source, condition, expression);
    FilterIndexedIgnoringIndex(Materialize(source), indexed, expression);
  }

  /** Eager-load hints never change which entities a query returns. */
  lemma IncludeIfMaterialize<T>(source: Query<T>, condition: Condition, navigation: string)
    ensures Materialize(IncludeIf(source, condition, navigation)) == Materialize(source)
  {
    if Holds(condition) {
      MaterializeCompose(source, Include(navigation));
    }
  }

  /** The no-tracking hint never changes which entities a query returns. */
  lemma AsNoTrackingIfMaterialize<T>(source: Query<T>, condition: Condition)
    ensures Materialize(AsNoTrackingIf(source, condition)) == Materialize(source)
  {
    if Holds(condition) {
      MaterializeCompose(source, AsNoTracking);
    }
  }
}
