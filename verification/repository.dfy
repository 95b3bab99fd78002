/**
 * The generic repository `Repository<TContext, T, TKey>`: a CRUD facade over a
 * persistence context. The context is an in-memory store: the committed rows
 * of the entity table, the changes staged on it and not yet saved, and
 * counters of the save and dispose calls it has received.
 */
module Repositories {
  import opened Wrappers
  import opened Sequences
  import opened Queryables

  /** An entity: its key (`IBaseEntity<TKey>.Id`) and its other fields, opaque here. */
  datatype Entity<K, V> = Entity(Id: K, Fields: V)

  /** The change-tracker state a staged entity is in. */
  datatype EntityState = Added | Modified | Deleted

  /** One change staged on the table and not yet saved. */
  datatype Change<K, V> = Change(state: EntityState, entity: Entity<K, V>)

  /** The table after a save, and the number of rows the save reports as affected. */
  datatype Saved<K, V> = Saved(rows: seq<Entity<K, V>>, affected: nat)

  function KeyIs<K(==), V>(id: K): Entity<K, V> -> bool {
    (e: Entity<K, V>) => e.Id == id
  }

  function KeyAmong<K(==), V>(ids: seq<K>): Entity<K, V> -> bool {
    (e: Entity<K, V>) => e.Id in ids
  }

  function KeyNotIn<K, V>(ids: set<K>): Entity<K, V> -> bool {
    (e: Entity<K, V>) => e.Id !in ids
  }

  /** Some row carries the key `id`. */
  predicate HasId<K(==), V(==)>(rows: seq<Entity<K, V>>, id: K) {
    exists e :: e in rows && e.Id == id
  }

  /** The key is a primary key: no two rows share one. */
  ghost predicate UniqueIds<K, V>(rows: seq<Entity<K, V>>) {
    forall i, j :: 0 <= i < j < |rows| ==> rows[i].Id != rows[j].Id
  }

  ghost function IdSet<K, V>(es: seq<Entity<K, V>>): set<K> {
    set e | e in es :: e.Id
  }

  /** The rows whose key is not in `ids`, in table order. */
  function WithoutIds<K(==), V(==)>(rows: seq<Entity<K, V>>, ids: set<K>): seq<Entity<K, V>> {
    Filter(rows, KeyNotIn(ids))
  }

  /** Every change of `es` in state `state`, in order: what `AddRange`, `UpdateRange` and `RemoveRange` stage. */
  function Staged<K, V>(state: EntityState, es: seq<Entity<K, V>>): (cs: seq<Change<K, V>>)
    ensures |cs| == |es|
    ensures forall i :: 0 <= i < |es| ==> cs[i] == Change(state, es[i])
  {
    seq(|es|, i requires 0 <= i < |es| => Change(state, es[i]))
  }

  /** Key lookup (`DbSet.Find`): the row with key `id`, if any. */
  function FindById<K(==), V(==)>(rows: seq<Entity<K, V>>, id: K): (r: Option<Entity<K, V>>)
    ensures r.Some? <==> HasId(rows, id)
    ensures r.Some? ==> r.value in rows && r.value.Id == id
    ensures UniqueIds(rows) ==> forall e :: e in rows && e.Id == id ==> r == Some(e)
  {
    var matches := Filter(rows, KeyIs(id));
    if matches == [] then
      assert forall e :: e in rows && e.Id == id ==> e in matches;
      None
    else
      assert matches[0] in matches;
      assert UniqueIds(rows) ==> forall e :: e in rows && e.Id == id ==> e == matches[0] by {
        if UniqueIds(rows) {
          forall e | e in rows && e.Id == id ensures e == matches[0] {
            SameKeySameRow(rows, e, matches[0]);
          }
        }
      }
      Some(matches[0])
  }

  /** The first row satisfying `p` (`FirstOrDefault`), if any. */
  function FirstWhere<K(==), V(==)>(rows: seq<Entity<K, V>>, p: Entity<K, V> -> bool): (r: Option<Entity<K, V>>)
    ensures r.None? <==> forall e :: e in rows ==> !p(e)
    ensures r.Some? ==> exists i :: 0 <= i < |rows| && rows[i] == r.value && p(r.value)
                          && forall j :: 0 <= j < i ==> !p(rows[j])
    decreases |rows|
  {
    if rows == [] then None
    else if p(rows[0]) then Some(rows[0])
    else
      var r := FirstWhere(rows[1..], p);
      assert forall e :: e in rows ==> e == rows[0] || e in rows[1..];
      if r.Some? then
        var i :| 0 <= i < |rows[1..]| && rows[1..][i] == r.value && p(r.value)
                 && forall j :: 0 <= j < i ==> !p(rows[1..][j]);
        assert rows[i + 1] == r.value;
        assert forall j :: 0 <= j < i + 1 ==> !p(rows[j]) by {
          forall j | 0 <= j < i + 1 ensures !p(rows[j]) {
            if j > 0 { assert rows[j] == rows[1..][j - 1]; }
          }
        }
        r
      else r
  }

  /** The table with every row keyed like `e` replaced by `e`. */
  function Replaced<K(==), V>(rows: seq<Entity<K, V>>, e: Entity<K, V>): (r: seq<Entity<K, V>>)
    ensures |r| == |rows|
    ensures forall i :: 0 <= i < |rows| ==> r[i].Id == rows[i].Id
  {
    seq(|rows|, i requires 0 <= i < |rows| => if rows[i].Id == e.Id then e else rows[i])
  }

  /**
   * How the store commits one staged change. A change it cannot apply (adding
   * a key that is present, updating or deleting a key that is absent) writes
   * no row and counts 0.
   */
  function ApplyChange<K(==), V(==)>(rows: seq<Entity<K, V>>, c: Change<K, V>): Saved<K, V> {
    var e := c.entity;
    match c.state
    case Added => if HasId(rows, e.Id) then Saved(rows, 0) else Saved(rows + [e], 1)
    case Modified => if HasId(rows, e.Id) then Saved(Replaced(rows, e), 1) else Saved(rows, 0)
    case Deleted => Saved(WithoutIds(rows, {e.Id}), if HasId(rows, e.Id) then 1 else 0)
  }

  /** `SaveChanges`: every staged change committed in order, with the total affected count. */
  function ApplyAll<K(==), V(==)>(rows: seq<Entity<K, V>>, cs: seq<Change<K, V>>): (s: Saved<K, V>)
    ensures s.affected <= |cs|
    decreases |cs|
  {
    if cs == [] then Saved(rows, 0)
    else
      var first := ApplyChange(rows, cs[0]);
      var rest := ApplyAll(first.rows, cs[1..]);
      Saved(rest.rows, first.affected + rest.affected)
  }

  /** Two rows of a table with unique keys that share a key are the same row. */
  lemma SameKeySameRow<K, V>(rows: seq<Entity<K, V>>, a: Entity<K, V>, b: Entity<K, V>)
    requires UniqueIds(rows) && a in rows && b in rows && a.Id == b.Id
    ensures a == b
  {
    var i :| 0 <= i < |rows| && rows[i] == a;
    var j :| 0 <= j < |rows| && rows[j] == b;
    assert !(i < j) && !(j < i);
  }

  lemma {:induction false} FilterKeepsIdsUnique<K, V>(rows: seq<Entity<K, V>>, p: Entity<K, V> -> bool)
    requires UniqueIds(rows)
    ensures UniqueIds(Filter(rows, p))
    decreases |rows|
  {
    if rows != [] {
      var init, last := rows[..|rows| - 1], rows[|rows| - 1];
      assert rows == init + [last];
      FilterKeepsIdsUnique(init, p);
      FilterSnoc(init, last, p);
      forall e | e in Filter(init, p) ensures e.Id != last.Id {
        var i :| 0 <= i < |init| && init[i] == e;
        assert rows[i] == e;
      }
    }
  }

  /** A save never gives two rows the same key. */
  lemma {:induction false} ApplyAllKeepsIdsUnique<K, V>(rows: seq<Entity<K, V>>, cs: seq<Change<K, V>>)
    requires UniqueIds(rows)
    ensures UniqueIds(ApplyAll(rows, cs).rows)
    decreases |cs|
  {
    if cs != [] {
      var e := cs[0].entity;
      if cs[0].state == Added && !HasId(rows, e.Id) {
        forall i | 0 <= i < |rows| ensures rows[i].Id != e.Id {
          assert rows[i] in rows;
        }
        assert UniqueIds(rows + [e]) by {
          forall i, j | 0 <= i < j < |rows| + 1 ensures (rows + [e])[i].Id != (rows + [e])[j].Id {
            if j == |rows| {
              assert (rows + [e])[i] == rows[i];
            }
          }
        }
      } else if cs[0].state == Deleted {
        FilterKeepsIdsUnique(rows, KeyNotIn({e.Id}));
      }
      ApplyAllKeepsIdsUnique(ApplyChange(rows, cs[0]).rows, cs[1..]);
    }
  }

  /**
   * Inserting an entity with a new key appends it, reports one affected row,
   * and a later key lookup returns it; a key already present writes nothing.
   */
  lemma InsertThenGet<K, V>(rows: seq<Entity<K, V>>, e: Entity<K, V>)
    requires UniqueIds(rows)
    ensures HasId(rows, e.Id) ==> ApplyAll(rows, [Change(Added, e)]) == Saved(rows, 0)
    ensures !HasId(rows, e.Id) ==> ApplyAll(rows, [Change(Added, e)]) == Saved(rows + [e], 1)
    ensures FindById(ApplyAll(rows, [Change(Added, e)]).rows, e.Id).Some?
    ensures !HasId(rows, e.Id) ==> FindById(ApplyAll(rows, [Change(Added, e)]).rows, e.Id) == Some(e)
  {
    ApplyAllKeepsIdsUnique(rows, [Change(Added, e)]);
    if !HasId(rows, e.Id) {
      assert e in rows + [e];
    }
  }

  /**
   * Inserting a batch whose keys are fresh and distinct appends it in order and
   * reports one affected row per entity.
   */
  lemma {:induction false} InsertRangeAppends<K, V>(rows: seq<Entity<K, V>>, es: seq<Entity<K, V>>)
    requires UniqueIds(rows + es)
    ensures ApplyAll(rows, Staged(Added, es)) == Saved(rows + es, |es|)
    decreases |es|
  {
    if es != [] {
      var e := es[0];
      assert (rows + es)[|rows|] == e;
      forall r | r in rows ensures r.Id != e.Id {
        var i :| 0 <= i < |rows| && rows[i] == r;
        assert (rows + es)[i] == r;
      }
      assert ApplyChange(rows, Change(Added, e)) == Saved(rows + [e], 1);
      assert rows + [e] + es[1..] == rows + es;
      assert Staged(Added, es)[1..] == Staged(Added, es[1..]);
      InsertRangeAppends(rows + [e], es[1..]);
    }
  }

  /**
   * An update replaces the row with the entity's key and reports one row when
   * the key is present; when it is absent the save writes nothing and reports 0.
   */
  lemma UpdateReplaces<K, V>(rows: seq<Entity<K, V>>, e: Entity<K, V>)
    requires UniqueIds(rows)
    ensures !HasId(rows, e.Id) ==> ApplyAll(rows, [Change(Modified, e)]) == Saved(rows, 0)
    ensures HasId(rows, e.Id) ==> ApplyAll(rows, [Change(Modified, e)]) == Saved(Replaced(rows, e), 1)
    ensures HasId(rows, e.Id) ==> FindById(Replaced(rows, e), e.Id) == Some(e)
  {
    if HasId(rows, e.Id) {
      var r :| r in rows && r.Id == e.Id;
      var i :| 0 <= i < |rows| && rows[i] == r;
      assert Replaced(rows, e)[i] == e;
      assert UniqueIds(Replaced(rows, e));
    }
  }

  /**
   * Updates replace whole records: every row whose key is among the entities'
   * becomes one of those entities, every other row stays as it was, keys stay
   * in place, and one row is reported per entity whose key is present.
   */
  lemma {:induction false} UpdateRangeReplacesRows<K, V>(rows: seq<Entity<K, V>>, es: seq<Entity<K, V>>)
    requires forall e :: e in es ==> HasId(rows, e.Id)
    ensures var s := ApplyAll(rows, Staged(Modified, es));
            |s.rows| == |rows| && s.affected == |es|
            && (forall i :: 0 <= i < |rows| ==> s.rows[i].Id == rows[i].Id)
            && (forall i :: 0 <= i < |rows| && rows[i].Id !in IdSet(es) ==> s.rows[i] == rows[i])
            && (forall i :: 0 <= i < |rows| && rows[i].Id in IdSet(es) ==> s.rows[i] in es)
    decreases |es|
  {
    if es != [] {
      var e := es[0];
      assert e in es;
      var rows1 := Replaced(rows, e);
      forall f | f in es[1..] ensures HasId(rows1, f.Id) {
        assert f in es;
        var r :| r in rows && r.Id == f.Id;
        var i :| 0 <= i < |rows| && rows[i] == r;
        assert rows1[i] in rows1;
      }
      assert Staged(Modified, es)[1..] == Staged(Modified, es[1..]);
      UpdateRangeReplacesRows(rows1, es[1..]);
      assert IdSet(es) == {e.Id} + IdSet(es[1..]) by {
        assert forall f :: f in es <==> f == e || f in es[1..];
      }
      assert forall f :: f in es[1..] ==> f in es;
    }
  }

  /**
   * Deleting a sequence of entities removes exactly the rows whose key is one of
   * theirs, keeping the others in order; when their keys are distinct and all
   * present, one row is reported per entity.
   */
  lemma {:induction false} DeleteAll<K, V>(rows: seq<Entity<K, V>>, sel: seq<Entity<K, V>>)
    ensures ApplyAll(rows, Staged(Deleted, sel)).rows == WithoutIds(rows, IdSet(sel))
    ensures UniqueIds(sel) && (forall e :: e in sel ==> HasId(rows, e.Id)) ==>
              ApplyAll(rows, Staged(Deleted, sel)).affected == |sel|
    decreases |sel|
  {
    if sel == [] {
      FilterAll(rows, KeyNotIn(IdSet(sel)));
    } else {
      var e, rest := sel[0], sel[1..];
      var rows1 := WithoutIds(rows, {e.Id});
      assert ApplyChange(rows, Change(Deleted, e)).rows == rows1;
      assert Staged(Deleted, sel)[1..] == Staged(Deleted, rest);
      DeleteAll(rows1, rest);
      assert IdSet(sel) == {e.Id} + IdSet(rest) by {
        assert forall f :: f in sel <==> f == e || f in rest;
      }
      FilterTwice(rows, KeyNotIn({e.Id}), KeyNotIn(IdSet(rest)), KeyNotIn(IdSet(sel)));
      if UniqueIds(sel) && (forall f :: f in sel ==> HasId(rows, f.Id)) {
        assert e in sel;
        assert UniqueIds(rest) by {
          forall i, j | 0 <= i < j < |rest| ensures rest[i].Id != rest[j].Id {
            assert rest[i] == sel[i + 1] && rest[j] == sel[j + 1];
          }
        }
        forall f | f in rest ensures HasId(rows1, f.Id) {
          var k :| 0 <= k < |rest| && rest[k] == f;
          assert sel[k + 1] == f && sel[0] == e;
          assert f in sel;
          var r :| r in rows && r.Id == f.Id;
          assert r in rows1;
        }
      }
    }
  }

  /**
   * `Delete(id)` on a key that is present removes exactly the row with that key
   * and reports one affected row.
   */
  lemma DeleteByIdRemovesRow<K, V>(rows: seq<Entity<K, V>>, id: K, e: Entity<K, V>)
    requires FindById(rows, id) == Some(e)
    ensures ApplyAll(rows, [Change(Deleted, e)]) == Saved(WithoutIds(rows, {id}), 1)
    ensures !HasId(WithoutIds(rows, {id}), id)
  {
    assert e in rows && e.Id == id;
  }

  /**
   * `DeleteRange(ids)`: the rows left are exactly the rows whose key is not
   * listed, in order; with unique keys one row is reported per removed row.
   */
  lemma DeleteRangeByIdsRemovesExactly<K, V>(rows: seq<Entity<K, V>>, ids: seq<K>)
    ensures var selected := Filter(rows, KeyAmong(ids));
            var s := ApplyAll(rows, Staged(Deleted, selected));
            s.rows == Filter(rows, Not(KeyAmong(ids)))
            && (UniqueIds(rows) ==> s.affected == |selected| && |s.rows| == |rows| - |selected|)
  {
    var selected := Filter(rows, KeyAmong(ids));
    DeleteAll(rows, selected);
    forall r | r in rows ensures KeyNotIn(IdSet(selected))(r) == Not(KeyAmong(ids))(r) {
      if r.Id in ids { assert r in selected; }
    }
    FilterCongruent(rows, KeyNotIn(IdSet(selected)), Not(KeyAmong(ids)));
    FilterPartition(rows, KeyAmong(ids));
    if UniqueIds(rows) {
      FilterKeepsIdsUnique(rows, KeyAmong(ids));
    }
  }

  /**
   * `DeleteRange(predicate)` over a table with unique keys: the rows left are
   * exactly the rows not satisfying the predicate, in order, and one row is
   * reported per removed row, so count(after) = count(before) - count(matching).
   */
  lemma DeleteRangeWhereRemovesExactly<K, V>(rows: seq<Entity<K, V>>, p: Entity<K, V> -> bool)
    requires UniqueIds(rows)
    ensures var selected := Filter(rows, p);
            var s := ApplyAll(rows, Staged(Deleted, selected));
            s.rows == Filter(rows, Not(p)) && s.affected == |selected| && |s.rows| == |rows| - |selected|
  {
    var selected := Filter(rows, p);
    DeleteAll(rows, selected);
    FilterKeepsIdsUnique(rows, p);
    forall r | r in rows ensures KeyNotIn(IdSet(selected))(r) == Not(p)(r) {
      if r.Id in IdSet(selected) {
        var e :| e in selected && e.Id == r.Id;
        SameKeySameRow(rows, e, r);
      }
    }
    FilterCongruent(rows, KeyNotIn(IdSet(selected)), Not(p));
    FilterPartition(rows, p);
  }

  /**
   * What the query `Table.Where(p)` returned by the bulk deletes yields when
   * the caller enumerates it: it runs again, against the table as it is then.
   */
  function EnumerateDeferred<K(==), V(==)>(table: seq<Entity<K, V>>, p: Entity<K, V> -> bool): (r: seq<Entity<K, V>>)
    ensures r == Filter(table, p)
  {
    MaterializeCompose(Query(table, []), Where(p));
    Materialize(Query(table, [Where(p)]))
  }

  lemma NothingSelected<K, V>(rows: seq<Entity<K, V>>, p: Entity<K, V> -> bool)
    requires forall e :: e in rows ==> !p(e)
    ensures Filter(rows, p) == []
  {
    if Filter(rows, p) != [] {
      assert Filter(rows, p)[0] in Filter(rows, p);
    }
  }

  /**
   * As written, `DeleteRange(ids)` hands back a query that, enumerated after
   * the call, yields nothing, whatever it deleted.
   */
  lemma DeleteRangeByIdsDeferredIsEmpty<K, V>(rows: seq<Entity<K, V>>, ids: seq<K>)
    ensures var after := ApplyAll(rows, Staged(Deleted, Filter(rows, KeyAmong(ids)))).rows;
            EnumerateDeferred(after, KeyAmong(ids)) == []
  {
    DeleteRangeByIdsRemovesExactly(rows, ids);
    var after := Filter(rows, Not(KeyAmong(ids)));
    NothingSelected(after, KeyAmong(ids));
  }

  /**
   * As written, `DeleteRange(expression)` hands back a query that, enumerated
   * after the call, yields nothing, whatever it deleted.
   */
  lemma DeleteRangeWhereDeferredIsEmpty<K, V>(rows: seq<Entity<K, V>>, p: Entity<K, V> -> bool)
    ensures var after := ApplyAll(rows, Staged(Deleted, Filter(rows, p))).rows;
            EnumerateDeferred(after, p) == []
  {
    var selected := Filter(rows, p);
    DeleteAll(rows, selected);
    var after := WithoutIds(rows, IdSet(selected));
    NothingSelected(after, p);
  }

  /**
   * `Delete(expression)` on a table with unique keys removes the first match
   * and no other row, and reports one affected row.
   */
  lemma DeleteWhereRemovesFirstOnly<K, V>(rows: seq<Entity<K, V>>, p: Entity<K, V> -> bool, e: Entity<K, V>)
    requires UniqueIds(rows)
    requires FirstWhere(rows, p) == Some(e)
    ensures ApplyAll(rows, [Change(Deleted, e)]) == Saved(WithoutIds(rows, {e.Id}), 1)
    ensures forall x :: x in WithoutIds(rows, {e.Id}) <==> x in rows && x != e
  {
    assert e in rows;
    forall x | x in rows && x != e ensures x in WithoutIds(rows, {e.Id}) {
      if x.Id == e.Id {
        SameKeySameRow(rows, x, e);
      }
    }
  }

  /** The persistence context bound to the repository, with its one entity table. */
  class Context<K(==), V(==)> {
    /** The committed rows of the table, in table order. */
    var rows: seq<Entity<K, V>>
    /** Changes staged by `Add`/`Update`/`Remove` and not yet saved. */
    var pending: seq<Change<K, V>>
    var saveCalls: nat
    var disposeCalls: nat

    /** The key is the table's primary key: the store never holds two rows with one key. */
    ghost predicate Valid()
      reads this
    {
      UniqueIds(rows)
    }

    constructor (rows: seq<Entity<K, V>>)
      requires UniqueIds(rows)
      ensures Valid()
      ensures this.rows == rows && pending == [] && saveCalls == 0 && disposeCalls == 0
    {
      this.rows := rows;
      pending := [];
      saveCalls := 0;
      disposeCalls := 0;
    }

    /** `DbSet.FindAsync`: key lookup. */
    method Find(id: K) returns (r: Option<Entity<K, V>>)
      ensures r == FindById(rows, id)
    {
      r := FindById(rows, id);
    }

    /** `FirstOrDefaultAsync(expression)` on the table. */
    method FirstOrDefault(p: Entity<K, V> -> bool) returns (r: Option<Entity<K, V>>)
      ensures r == FirstWhere(rows, p)
    {
      r := FirstWhere(rows, p);
    }

    /** `DbSet.Add` / `AddRange`, `Update` / `UpdateRange`, `Remove` / `RemoveRange`: stage, do not save. */
    method Track(state: EntityState, es: seq<Entity<K, V>>)
      modifies this`pending
      ensures pending == old(pending) + Staged(state, es)
    {
      pending := pending + Staged(state, es);
    }

    /** `SaveChangesAsync`: commit every staged change and report the affected rows. */
    method SaveChanges() returns (n: nat)
      requires Valid()
      modifies this`rows, this`pending, this`saveCalls
      ensures Valid()
      ensures var s := ApplyAll(old(rows), old(pending)); rows == s.rows && n == s.affected
      ensures pending == [] && saveCalls == old(saveCalls) + 1
    {
      var s := ApplyAll(rows, pending);
      ApplyAllKeepsIdsUnique(rows, pending);
      rows, n := s.rows, s.affected;
      pending := [];
      saveCalls := saveCalls + 1;
    }

    method Dispose()
      modifies this`disposeCalls
      ensures disposeCalls == old(disposeCalls) + 1
    {
      disposeCalls := disposeCalls + 1;
    }
  }

  /**
   * The state after staging `staged` and saving exactly once: everything
   * pending before, then `staged`, committed, with `n` the reported count.
   */
  twostate predicate StagedAndSavedOnce<K, V>(c: Context<K, V>, staged: seq<Change<K, V>>, n: nat)
    reads c
  {
    var s := ApplyAll(old(c.rows), old(c.pending) + staged);
    c.rows == s.rows && n == s.affected && c.pending == [] && c.saveCalls == old(c.saveCalls) + 1
  }

  class Repository<K(==), V(==)> {
    const context: Context<K, V>

    /** Binds the context; its table (`Context.Set<T>()`) is the context's one table. */
    constructor (context: Context<K, V>)
      ensures this.context == context
    {
      this.context := context;
    }

    /** `Values`: the table read without change tracking. */
    function Values(): (q: Query<Entity<K, V>>)
      reads this, context
      ensures q.source == context.rows && AsNoTracking in q.stages
      ensures Materialize(q) == context.rows
    {
      Query(context.rows, [AsNoTracking])
    }

    /** `Get(id)`: the row with key `id`, or none; reads only. */
    method Get(id: K) returns (r: Option<Entity<K, V>>)
      requires context.Valid()
      ensures r.Some? <==> HasId(context.rows, id)
      ensures r.Some? ==> r.value in context.rows && r.value.Id == id
      ensures r == FindById(context.rows, id)
    {
      MaterializeCompose(Values(), Where(KeyIs(id)));
      var matches := Materialize(Compose(Values(), Where(KeyIs(id))));
      assert forall e :: e in context.rows && e.Id == id ==> e in matches;
      if matches == [] {
        r := None;
      } else {
        r := Some(matches[0]);
        assert matches[0] in matches;
      }
    }

    /** `List()`: every row, in table order; reads only. */
    method List() returns (r: seq<Entity<K, V>>)
      requires context.Valid()
      ensures r == context.rows
    {
      r := Materialize(Values());
    }

    /** `List(expression)`: exactly the rows satisfying it, in table order; reads only. */
    method ListWhere(expression: Entity<K, V> -> bool) returns (r: seq<Entity<K, V>>)
      requires context.Valid()
      ensures r == Filter(context.rows, expression)
      ensures forall e :: e in r <==> e in context.rows && expression(e)
    {
      MaterializeCompose(Values(), Where(expression));
      r := Materialize(Compose(Values(), Where(expression)));
    }

    method Insert(entity: Entity<K, V>) returns (r: Entity<K, V>, n: nat)
      requires context.Valid()
      modifies context`rows, context`pending, context`saveCalls
      ensures context.Valid()
      ensures r == entity
      ensures StagedAndSavedOnce(context, [Change(Added, entity)], n)
    {
      context.Track(Added, [entity]);
      assert Staged(Added, [entity]) == [Change(Added, entity)];
      n := context.SaveChanges();
      r := entity;
    }

    method InsertRange(entities: seq<Entity<K, V>>) returns (r: seq<Entity<K, V>>, n: nat)
      requires context.Valid()
      modifies context`rows, context`pending, context`saveCalls
      ensures context.Valid()
      ensures r == entities
      ensures StagedAndSavedOnce(context, Staged(Added, entities), n)
    {
      context.Track(Added, entities);
      n := context.SaveChanges();
      r := entities;
    }

    /** `Update`: staged and saved with no check that the key exists. */
    method Update(entity: Entity<K, V>) returns (r: Entity<K, V>, n: nat)
      requires context.Valid()
      modifies context`rows, context`pending, context`saveCalls
      ensures context.Valid()
      ensures r == entity
      ensures StagedAndSavedOnce(context, [Change(Modified, entity)], n)
    {
      context.Track(Modified, [entity]);
      assert Staged(Modified, [entity]) == [Change(Modified, entity)];
      n := context.SaveChanges();
      r := entity;
    }

    method UpdateRange(entities: seq<Entity<K, V>>) returns (r: seq<Entity<K, V>>, n: nat)
      requires context.Valid()
      modifies context`rows, context`pending, context`saveCalls
      ensures context.Valid()
      ensures r == entities
      ensures StagedAndSavedOnce(context, Staged(Modified, entities), n)
    {
      context.Track(Modified, entities);
      n := context.SaveChanges();
      r := entities;
    }

    /** `Delete(entity)`: removes the caller's instance. */
    method Delete(entity: Entity<K, V>) returns (r: Entity<K, V>, n: nat)
      requires context.Valid()
      modifies context`rows, context`pending, context`saveCalls
      ensures context.Valid()
      ensures r == entity
      ensures StagedAndSavedOnce(context, [Change(Deleted, entity)], n)
    {
      context.Track(Deleted, [entity]);
      assert Staged(Deleted, [entity]) == [Change(Deleted, entity)];
      n := context.SaveChanges();
      r := entity;
    }

    /** `Delete(id)`: an absent key returns `(null, 0)` and saves nothing. */
    method DeleteById(id: K) returns (r: Option<Entity<K, V>>, n: nat)
      requires context.Valid()
      modifies context`rows, context`pending, context`saveCalls
      ensures context.Valid()
      ensures r == FindById(old(context.rows), id)
      ensures r.None? ==> n == 0 && unchanged(context)
      ensures r.Some? ==> StagedAndSavedOnce(context, [Change(Deleted, r.value)], n)
    {
      var entity := context.Find(id);
      if entity.None? {
        return None, 0;
      }
      context.Track(Deleted, [entity.value]);
      assert Staged(Deleted, [entity.value]) == [Change(Deleted, entity.value)];
      n := context.SaveChanges();
      r := entity;
    }

    /** `Delete(expression)`: the first matching row only; no match returns `(null, 0)` and saves nothing. */
    method DeleteWhere(expression: Entity<K, V> -> bool) returns (r: Option<Entity<K, V>>, n: nat)
      requires context.Valid()
      modifies context`rows, context`pending, context`saveCalls
      ensures context.Valid()
      ensures r == FirstWhere(old(context.rows), expression)
      ensures r.None? ==> n == 0 && unchanged(context)
      ensures r.Some? ==> StagedAndSavedOnce(context, [Change(Deleted, r.value)], n)
      ensures r.Some? && old(context.pending) == [] ==>
                n == 1 && forall x :: x in context.rows <==> x in old(context.rows) && x != r.value
    {
      var entity := context.FirstOrDefault(expression);
      if entity.None? {
        return None, 0;
      }
      DeleteWhereRemovesFirstOnly(context.rows, expression, entity.value);
      context.Track(Deleted, [entity.value]);
      assert Staged(Deleted, [entity.value]) == [Change(Deleted, entity.value)];
      n := context.SaveChanges();
      r := entity;
    }

    /** `DeleteRange(entities)`. */
    method DeleteRange(entities: seq<Entity<K, V>>) returns (r: seq<Entity<K, V>>, n: nat)
      requires context.Valid()
      modifies context`rows, context`pending, context`saveCalls
      ensures context.Valid()
      ensures r == entities
      ensures StagedAndSavedOnce(context, Staged(Deleted, entities), n)
    {
      context.Track(Deleted, entities);
      n := context.SaveChanges();
      r := entities;
    }

    /** `DeleteRange(ids)`: the rows whose key is listed, selected before removal. */
    method DeleteRangeByIds(ids: seq<K>) returns (r: seq<Entity<K, V>>, n: nat)
      requires context.Valid()
      modifies context`rows, context`pending, context`saveCalls
      ensures context.Valid()
      ensures r == Filter(old(context.rows), KeyAmong(ids))
      ensures StagedAndSavedOnce(context, Staged(Deleted, r), n)
    {
      var entities := Filter(context.rows, KeyAmong(ids));
      context.Track(Deleted, entities);
      n := context.SaveChanges();
      r := entities;
    }

    /** `DeleteRange(expression)`: the rows satisfying it, selected before removal. */
    method DeleteRangeWhere(expression: Entity<K, V> -> bool) returns (r: seq<Entity<K, V>>, n: nat)
      requires context.Valid()
      modifies context`rows, context`pending, context`saveCalls
      ensures context.Valid()
      ensures r == Filter(old(context.rows), expression)
      ensures StagedAndSavedOnce(context, Staged(Deleted, r), n)
    {
      var entities := Filter(context.rows, expression);
      context.Track(Deleted, entities);
      n := context.SaveChanges();
      r := entities;
    }

    /** `Dispose`: forwards to the context on every call; there is no guard against a second call. */
    method Dispose()
      requires context.Valid()
      modifies context`disposeCalls
      ensures context.Valid()
      ensures context.disposeCalls == old(context.disposeCalls) + 1
    {
      context.Dispose();
    }

    /** `DisposeAsync`: the same forwarding, awaited by the caller. */
    method DisposeAsync()
      requires context.Valid()
      modifies context`disposeCalls
      ensures context.Valid()
      ensures context.disposeCalls == old(context.disposeCalls) + 1
    {
      context.Dispose();
    }
  }
}
