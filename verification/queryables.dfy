/**
 * The LINQ/EF query pipeline the extension helpers compose over: a source of
 * entities and the stages composed onto it, run only when materialised.
 */
module Queryables {
  import opened Sequences

  /** One composed stage of an `IQueryable<T>`. */
  datatype Stage<!T> =
    | Where(filter: T -> bool)                   // Queryable.Where(Expression<Func<T, bool>>)
    | WhereIndexed(indexedFilter: (T, nat) -> bool)  // Queryable.Where(Expression<Func<T, int, bool>>)
    | Include(navigation: string)                // EF eager-load of a navigation path
    | AsNoTracking                               // EF read without change tracking

  /** A query: a source sequence and the stages composed onto it, oldest first. */
  datatype Query<!T> = Query(source: seq<T>, stages: seq<Stage<T>>)

  /** Composing one stage: a new query value, the original untouched. */
  function Compose<T>(q: Query<T>, stage: Stage<T>): Query<T> {
    Query(q.source, q.stages + [stage])
  }

  /** What running one stage does to the rows coming out of the earlier stages. */
  function RunStage<T(==)>(rows: seq<T>, stage: Stage<T>): seq<T> {
    match stage
    case Where(p) => Filter(rows, p)
    case WhereIndexed(p) => FilterIndexed(rows, p)
    case Include(_) => rows
    case AsNoTracking => rows
  }

  function Run<T(==)>(rows: seq<T>, stages: seq<Stage<T>>): seq<T>
    decreases |stages|
  {
    if stages == [] then rows
    else RunStage(Run(rows, stages[..|stages| - 1]), stages[|stages| - 1])
  }

  /** The terminal execution (`ToList`): every stage run in order over the source. */
  function Materialize<T(==)>(q: Query<T>): seq<T> {
    Run(q.source, q.stages)
  }

  /** Materialising a composed query runs the new stage over the old query's results. */
  lemma MaterializeCompose<T>(q: Query<T>, stage: Stage<T>)
    ensures Materialize(Compose(q, stage)) == RunStage(Materialize(q), stage)
  {
    assert (q.stages + [stage])[..|q.stages|] == q.stages;
  }
}
