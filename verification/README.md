# EF.Core.Extensions in Dafny

A model of the core of EF.Core.Extensions, a small C# data-access library over
Entity Framework Core:

- the generic repository `Repository<TContext, T, TKey>`, a CRUD facade that
  stages changes on the context's entity table and then saves exactly once per
  operation (`repository.dfy`, module `Repositories`);
- the conditional query helpers `WhereIf`, `IncludeIf` and `AsNoTrackingIf`,
  which either hand back the source query or append one stage to it
  (`queryable_extensions.dfy`, over the pipeline of `queryables.dfy`);
- the collection helpers `AddIf`, `AddOrIgnore`, `AddRangeIfNotContains`,
  `AddRangeIf` and `AddRange`, which change a collection in place
  (`collection_extensions.dfy`);
- the null-defaulting helpers for strings, `bool?` and any nullable value
  (`string_extensions.dfy`, `bool_extensions.dfy`, `anonymous_extensions.dfy`).

Shared pieces: `wrappers.dfy` (`Option`, standing for C# `null`) and
`sequences.dfy` (`Filter`, the order-preserving `Where`, and its lemmas).

**The store.** The persistence context is the class `Repositories.Context`.
It holds the committed rows of the one entity table, the changes staged on it
(`Added`, `Modified`, `Deleted`, as in EF's change tracker), and counters of
save and dispose calls. `SaveChanges` commits the staged changes in order
(`ApplyAll`) and reports the number of rows they affected. A change the store
cannot apply writes nothing and counts 0. Such changes are: an add whose key is
present, and an update or delete whose key is absent. The key is a primary key. `Context.Valid()` says so, and it is the
context's invariant: the constructor takes a table with unique keys,
`SaveChanges` keeps the keys unique (by `ApplyAllKeepsIdsUnique`), and every
repository method requires it of the context and leaves it holding.

**The repository.** Each mutating method of `Repositories.Repository` states
its whole new state with the two-state predicate `StagedAndSavedOnce`. That
predicate says that the method staged its changes after those already pending,
that one save committed them, and that the count returned is the save's.
The lemmas beside the class then state what that save does to a table with
unique keys. For example, `DeleteRangeWhereRemovesExactly` proves that
`DeleteRange(expression)` leaves exactly the rows not matching, in order, and
reports one row per removed row. The read methods (`Get`, `List`,
`ListWhere`) have no `modifies` clause, so they provably change nothing and
make no save call.

**Details of the code the model keeps.** `Dispose` and `DisposeAsync` forward
to the context on every call, with no guard against a second call. `Get` uses
`SingleOrDefault`, which throws when two rows share the key; the context
invariant rules that table out. `DeleteRange(ids)` and `DeleteRange(expression)`
return a deferred query rather than the rows deleted (see Findings).

## Model

| member | source | states |
|---|---|---|
| `Repositories.FindById` | EF.Core.Extensions/IRepository.cs:51 | the key lookup finds a row iff some row has the key; the row found has that key; with unique keys it is the one row with that key |
| `Repositories.FirstWhere` | EF.Core.Extensions/IRepository.cs:61 | `FirstOrDefault`: none iff no row satisfies the expression; otherwise a row satisfying it: the first in the model's row order |
| `Repositories.ApplyAllKeepsIdsUnique` | EF.Core.Extensions/IBaseEntity.cs:5-6 | a save over a table whose `[Key]` values are unique leaves them unique |
| `Repositories.InsertThenGet` | EF.Core.Extensions/IRepository.cs:87-91 | saving an insert of a fresh key appends the entity and reports 1, and a later key lookup returns it; a key already present writes nothing and reports 0 |
| `Repositories.InsertRangeAppends` | EF.Core.Extensions/IRepository.cs:92-96 | one save of a batch of fresh, distinct keys appends the batch in order after the prior rows (in the model's row order) and reports one row per entity |
| `Repositories.UpdateReplaces` | EF.Core.Extensions/IRepository.cs:99-103 | an update of a present key replaces that row and reports 1, and a lookup then returns the new entity; an absent key still saves, writes nothing and reports 0 |
| `Repositories.UpdateRangeReplacesRows` | EF.Core.Extensions/IRepository.cs:104-108 | one save of updates of present keys turns every row with an updated key into one of the given entities, leaves every other row as it was, keeps every key at its place, and reports one row per entity |
| `Repositories.DeleteAll` | EF.Core.Extensions/IRepository.cs:69-73 | deleting entities leaves exactly the rows whose key is none of theirs, in order; with distinct present keys it reports one row per entity |
| `Repositories.DeleteWhereRemovesFirstOnly` | EF.Core.Extensions/IRepository.cs:59-68 | on a table with unique keys, deleting the first match reports 1 and removes that row and no other |
| `Repositories.DeleteByIdRemovesRow` | EF.Core.Extensions/IRepository.cs:49-58 | deleting the row found by key leaves every row with another key, no row with that key, and reports 1 |
| `Repositories.DeleteRangeByIdsRemovesExactly` | EF.Core.Extensions/IRepository.cs:74-79 | the rows left are exactly those whose key is not listed, in order; with unique keys the count is the number selected and the table shrinks by it |
| `Repositories.DeleteRangeWhereRemovesExactly` | EF.Core.Extensions/IRepository.cs:80-85 | the rows left are exactly those not satisfying the expression, in order; the count is the number matching, and count(after) = count(before) - count(matching) |
| `Repositories.EnumerateDeferred` | EF.Core.Extensions/IRepository.cs:82 | enumerating the returned `Table.Where(expression)` yields the rows of the table at enumeration time that satisfy it |
| `Repositories.DeleteRangeByIdsDeferredIsEmpty` | EF.Core.Extensions/IRepository.cs:76-78 | the query `DeleteRange(ids)` returns, enumerated after the call, is empty |
| `Repositories.DeleteRangeWhereDeferredIsEmpty` | EF.Core.Extensions/IRepository.cs:82-84 | the query `DeleteRange(expression)` returns, enumerated after the call, is empty |
| `Repositories.Context.Find` | EF.Core.Extensions/IRepository.cs:51 | `FindAsync` returns the key lookup of the committed rows and changes nothing |
| `Repositories.Context.FirstOrDefault` | EF.Core.Extensions/IRepository.cs:61 | `FirstOrDefaultAsync` returns the first matching committed row and changes nothing |
| `Repositories.Context.SaveChanges` | EF.Core.Extensions/IRepository.cs:47 | the committed rows become every pending change applied in order, the count is their affected rows, nothing stays pending, the save counter grows by one, and the keys stay unique |
| `Repositories.Repository.constructor` | EF.Core.Extensions/IRepository.cs:33-37 | binds the given context |
| `Repositories.Repository.Values` | EF.Core.Extensions/IRepository.cs:40 | the table with a no-tracking stage; it materialises to every row, in the model's row order |
| `Repositories.Repository.Get` | EF.Core.Extensions/IRepository.cs:86 | requires and keeps unique keys; returns a row iff one has the key, that row has the key and is the key lookup's row; reads only |
| `Repositories.Repository.List` | EF.Core.Extensions/IRepository.cs:97 | returns every row, in the model's row order; reads only |
| `Repositories.Repository.ListWhere` | EF.Core.Extensions/IRepository.cs:98 | returns exactly the rows satisfying the expression, in the model's row order; reads only |
| `Repositories.Repository.Insert` | EF.Core.Extensions/IRepository.cs:87-91 | stages the add after what was pending, saves once, returns the entity unchanged with the save's count |
| `Repositories.Repository.InsertRange` | EF.Core.Extensions/IRepository.cs:92-96 | stages every add in order, saves once (not once per entity), returns the entities with the save's count |
| `Repositories.Repository.Update` | EF.Core.Extensions/IRepository.cs:99-103 | stages the update with no existence check, saves once, returns the entity with the save's count |
| `Repositories.Repository.UpdateRange` | EF.Core.Extensions/IRepository.cs:104-108 | stages every update, saves once, returns the entities with the save's count |
| `Repositories.Repository.Delete` | EF.Core.Extensions/IRepository.cs:44-48 | stages removal of the caller's entity, saves once, returns it with the save's count |
| `Repositories.Repository.DeleteById` | EF.Core.Extensions/IRepository.cs:49-58 | an absent key returns (none, 0) with the context untouched and no save; otherwise stages removal of the row found, saves once and returns it with the count |
| `Repositories.Repository.DeleteWhere` | EF.Core.Extensions/IRepository.cs:59-68 | no match returns (none, 0) with the context untouched and no save; otherwise stages removal of the first match only and saves once; with nothing pending before, the count is 1 and exactly that row is gone |
| `Repositories.Repository.DeleteRange` | EF.Core.Extensions/IRepository.cs:69-73 | stages removal of every given entity, saves once, returns them with the save's count |
| `Repositories.Repository.DeleteRangeByIds` | EF.Core.Extensions/IRepository.cs:74-79 | selects the rows whose key is listed, stages their removal, saves once, returns the selection taken before removal with the count |
| `Repositories.Repository.DeleteRangeWhere` | EF.Core.Extensions/IRepository.cs:80-85 | selects the rows satisfying the expression, stages their removal, saves once, returns the selection taken before removal with the count |
| `Repositories.Repository.Dispose` | EF.Core.Extensions/IRepository.cs:110-114 | forwards one dispose to the context on every call |
| `Repositories.Repository.DisposeAsync` | EF.Core.Extensions/IRepository.cs:115-119 | forwards one dispose to the context on every call |
| `QueryableExtensions.WhereIf` | EF.Core.Extensions/CoreExtensions.cs:6-7 | false condition: the source query itself; true: the source with exactly one filter stage appended (also the `Func<bool>` and `Expression<Func<bool>>` overloads at lines 12-13 and 18-19) |
| `QueryableExtensions.WhereIfIndexed` | EF.Core.Extensions/CoreExtensions.cs:9-10 | the same for the index-aware filter (also lines 15-16 and 21-22) |
| `QueryableExtensions.IncludeIf` | EF.Core.Extensions/CoreExtensions.cs:26-36 | false: the source; true: the source with one eager-load stage for the navigation path appended |
| `QueryableExtensions.AsNoTrackingIf` | EF.Core.Extensions/CoreExtensions.cs:40-50 | false: the source; true: the source with one no-tracking stage appended |
| `QueryableExtensions.ConditionShapesAgree` | EF.Core.Extensions/CoreExtensions.cs:12-22 | each helper given a `Func<bool>` or an `Expression<Func<bool>>` gives what the `bool` overload gives for the value it yields |
| `QueryableExtensions.WhereIfMaterialize` | EF.Core.Extensions/CoreExtensions.cs:6-7 | executed, a true `WhereIf` yields exactly the source results satisfying the filter, in order; a false one yields the source results |
| `QueryableExtensions.WhereIfIndexedMaterialize` | EF.Core.Extensions/CoreExtensions.cs:9-10 | executed, a true indexed `WhereIf` keeps the results `x` at position `i` with `filter(x, i)`; a false one yields the source results |
| `QueryableExtensions.WhereIfIndexedIgnoringIndex` | EF.Core.Extensions/CoreExtensions.cs:9-10 | an index-aware filter that ignores the index yields what the plain `WhereIf` yields |
| `QueryableExtensions.IncludeIfMaterialize` | EF.Core.Extensions/CoreExtensions.cs:26-28 | an eager-load hint never changes the entities a query yields |
| `QueryableExtensions.AsNoTrackingIfMaterialize` | EF.Core.Extensions/CoreExtensions.cs:40-42 | a no-tracking hint never changes the entities a query yields |
| `CollectionExtensions.AddIf` | EF.Core.Extensions/ICollectionExtensions.cs:5-14 | appends the value and returns true iff `func(value)`; otherwise the collection is unchanged and it returns false |
| `CollectionExtensions.AddOrIgnore` | EF.Core.Extensions/ICollectionExtensions.cs:15-24 | appends the value and returns true iff it was not contained; otherwise unchanged and false; old contents stay a prefix |
| `CollectionExtensions.AddOrIgnoreTwice` | EF.Core.Extensions/ICollectionExtensions.cs:17-23 | the first `AddOrIgnore` returns true iff the value was absent; a second one of the same value returns false and leaves the collection as the first left it |
| `CollectionExtensions.AdjoinAll` | EF.Core.Extensions/ICollectionExtensions.cs:25-30 | the contents after `AddRangeIfNotContains`: the old contents are a prefix, every value is contained, nothing else is added |
| `CollectionExtensions.AdjoinAllAddsEachOnce` | EF.Core.Extensions/ICollectionExtensions.cs:25-30 | the added part holds each value not already present exactly once, and nothing else |
| `CollectionExtensions.AdjoinAllKeepsNoDuplicates` | EF.Core.Extensions/ICollectionExtensions.cs:25-30 | a duplicate-free collection stays duplicate-free |
| `CollectionExtensions.AdjoinAllIdempotent` | EF.Core.Extensions/ICollectionExtensions.cs:25-30 | adding the same range again changes nothing |
| `CollectionExtensions.AddRangeIfNotContains` | EF.Core.Extensions/ICollectionExtensions.cs:25-30 | the loop leaves the contents `AdjoinAll(old contents, values)`, each `Contains` seeing the earlier additions |
| `CollectionExtensions.AddRangeIf` | EF.Core.Extensions/ICollectionExtensions.cs:31-36 | appends exactly the values satisfying the predicate, in their order; nothing removed or reordered |
| `CollectionExtensions.AddRange` | EF.Core.Extensions/ICollectionExtensions.cs:37-41 | appends every value in order, so the length grows by the number of values |
| `StringExtensions.Trim` | EF.Core.Extensions/StringExtensions.cs:7 | `Trim()` cuts off only white space before and after a contiguous piece of the string; the piece is empty exactly when every character is white space, and otherwise starts and ends with a non-white-space character |
| `StringExtensions.EmptyToNullReplace` | EF.Core.Extensions/StringExtensions.cs:5-8 | null exactly for null, empty or all-white-space input; any other string comes back unchanged, not trimmed |
| `StringExtensions.EmptyToNullReplaceIdempotent` | EF.Core.Extensions/StringExtensions.cs:5-8 | applying it twice is applying it once |
| `StringExtensions.ReplaceWithIf` | EF.Core.Extensions/StringExtensions.cs:10-14 | `newValue` when the condition holds of `value`, `value` otherwise |
| `BoolExtensions.DefaultIfNull` | EF.Core.Extensions/BoolExtensions.cs:9 | null gives the default; a value gives itself |
| `BoolExtensions.FalseIfNull` | EF.Core.Extensions/BoolExtensions.cs:5 | equals `DefaultIfNull(v, false)`: true exactly for a true value |
| `BoolExtensions.TrueIfNull` | EF.Core.Extensions/BoolExtensions.cs:7 | equals `DefaultIfNull(v, true)`: false exactly for a false value |
| `AnonymousExtensions.DefaultIfEmpty` | EF.Core.Extensions/AnonymousExtensions.cs:5 | a non-null value gives itself, null gives the default, and a non-null default gives a non-null result |
| `AnonymousExtensions.DefaultIfEmptyIdempotent` | EF.Core.Extensions/AnonymousExtensions.cs:5 | defaulting again with the same default changes nothing |

## Left out

- Asynchrony, `CancellationToken`s and the `Task`/`ValueTask` wrappers: each repository method is one sequential step.
- Exceptions from `SaveChangesAsync`: a save never fails here. The store treats a change it cannot apply as a no-op that counts 0; EF would raise a concurrency or constraint error instead.
- SQL translation and the EF change tracker beyond one pending-change list: `Find` looks at the committed rows only, not at entities already tracked. Changes are identified by key, not by object reference. `Update` of an entity whose key is unset (which EF turns into an add) is not modelled.
- Repositories.Repository: every method requires `context.Valid()`, so a table in which two rows share a key is not modelled. On such a table `Get`'s `SingleOrDefault` throws, and `Delete(expression)` would remove every row sharing the first match's key.
- Repositories.Context.SaveChanges: EF saves the batch in one transaction, all or nothing; a change that fails rolls the whole batch back and throws. `ApplyAll` instead commits the other changes and counts the failing one as 0, so for a batch with a failing change the model's outcome is not EF's.
- CollectionExtensions.Collection: a `List<T>`-like collection, whose `Add` always appends. A `HashSet<T>`, whose `Add` ignores an element already present, and a read-only collection, whose `Add` throws `NotSupportedException`, are not modelled.
- Repositories.Repository.DeleteRangeByIds: returns the selection taken before removal; the code returns the deferred query itself (see Findings, and `EnumerateDeferred` for what that query yields).
- Repositories.Repository.DeleteRangeWhere: the same snapshot in place of the deferred query.
- Repositories.Repository.Dispose: `GC.SuppressFinalize` is left out, and so is what the context does when disposed twice. Only the forwarding is modelled.
- Repositories.FirstWhere / Repositories.Repository.DeleteWhere / List / ListWhere: the store's rows have an order, the model's choice: an insert appends, an update keeps the row's place, and reads and `FirstOrDefault` follow that order. The code's queries have no `OrderBy`, so the database may return rows in another order (for example by clustered key). "The first match" and "in table order" are therefore one possible outcome. What the code guarantees holds in the model independently of the order: `Delete(expression)` removes one row satisfying the expression (counting 1 when nothing else is pending), and the reads return the same rows.
- Counts are `nat`; the code's `int` never holds a negative count.
- `Expression.Compile()`: an `Expression<Func<bool>>` condition is the function it compiles to. Function calls are pure here, so "evaluated once" cannot be stated and is not.
- The navigation property path of `IncludeIf` is a `string` naming it; what eager loading fetches is not modelled, only that it leaves the result entities unchanged.
- `BuilderExtensions` (dependency-injection registration) and `AppExtensions` (ASP.NET middleware) are framework plumbing. `BaseEntity`'s `Guid.NewGuid()` key is randomness. The key is instead a caller-supplied value of any equality type.
- The abstract `Values`, `Table` and `Context` properties of the interface are not modelled as overridable; the model has one concrete repository.

## Findings

| source | as written | input that shows it | evidently intended | confidence | as-written member | corrected member |
|---|---|---|---|---|---|---|
| EF.Core.Extensions/IRepository.cs:74-79 | returns the deferred query `Table.Where(s => id.Contains(s.Id))`, which runs again when the caller enumerates it, after the rows are gone | a table holding one row with key 1, `DeleteRange([1])`: the count is 1, and enumerating the returned entities yields nothing | return the entities that were deleted | not executed; high for the re-run, medium for the intent | `Repositories.DeleteRangeByIdsDeferredIsEmpty` | `Repositories.Repository.DeleteRangeByIds` |
| EF.Core.Extensions/IRepository.cs:80-85 | returns the deferred query `Table.Where(expression)`, enumerated after the save | a table holding one row `e` with `expression(e)`: the count is 1, and enumerating the returned entities yields nothing | return the entities that were deleted | not executed; high for the re-run, medium for the intent | `Repositories.DeleteRangeWhereDeferredIsEmpty` | `Repositories.Repository.DeleteRangeWhere` |
