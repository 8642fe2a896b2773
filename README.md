# Offset paging and unit of work of a generic CRUD Web API, in Dafny

This project models the two parts of the `Company.Application.Common`
library that carry logic of their own, and proves what they promise:

- **Paging** (`Paging/PagedList.cs`, `Paging/PagingHeader.cs`,
  `Paging/PagingLinks.cs`). `PagedList<T>` counts a source, keeps the
  requested page number and page size as given, and cuts the page with
  `Skip(pageSize * (pageNumber - 1)).Take(pageSize)`. From these it derives
  the page count, the previous/next flags and page numbers, and a
  `PagingHeader`. `PagingLinks<T>` builds the navigation links: an optional
  previous-page link, the self link, and an optional next-page link.
- **Unit of work** (`UnitofWork/UnitofWork.cs`). It owns one database
  context and hands out repositories bound to it. `SaveChanges` begins a
  transaction, saves, and commits. If the save or the commit throws, it
  rolls back and throws `"Error on save changes "` wrapping the cause. The
  transaction is disposed either way. `Dispose` releases the context at
  most once.

Files:

- `int32.dfy`: module `Int32`, the C# `int` range and two's-complement wrap-around.
- `counting.dfy`: module `Counting`, the 0/1 indicator used when counting
  conditional steps.
- `wrappers.dfy`: module `Wrappers`, with `Option`, `Result` and `Outcome`.
  Exceptions become `Failure`/`Fail` values.
- `paging.dfy`: module `Paging`. It holds the ceiling division, LINQ's
  `Skip`/`Take`, the `PagingHeader` and `PagedList` datatypes, and the
  slicing lemmas.
- `links.dfy`: module `Links`. It holds `LinkInfo`, `CreateLink` and the
  `GetLinks` method.
- `unit_of_work.dfy`: module `Persistence`. It holds the context and
  transaction as objects that log every call, the `UnitofWork` class, and
  lemmas about what one save records.

How things are modelled:

- `PagedList` and `PagingHeader` have only get-only properties set once, so
  both are datatypes. A header cannot change after construction.
- The `PagedList` constructor is a function of a `seq`. `TotalPages` is the
  exact ceiling of `TotalItems / PageSize`. The C# code gets it from
  `Math.Ceiling` over a `double` quotient. For 32-bit operands that quotient
  is within `a / 2^53` of `a / b`. A quotient that is not a whole number is
  at least `1 / |b|` from the nearest integer. So rounding never changes the
  ceiling.
- `Skip` and `Take` follow LINQ to Objects: a count of zero or less skips or
  takes nothing.
- `IUrlHelper.Link` is a function parameter of type
  `(routeName, pageNumber, pageSize) -> string`. Nothing else is assumed
  about it.
- The context and its transactions belong to the ORM. Each of their calls
  may succeed or throw, chosen nondeterministically. Every call appends an
  `Event` to a ghost log. `SaveChanges` returns a ghost `Responses` value
  that records the answers it got. Its contract fixes the new log as
  `SaveChangesRun(tx, c)` and the result as `SaveChangesResult(c)`. The
  lemmas then state the commit, rollback and dispose guarantees over all
  possible answers.
- The `_context == null` check in `SaveChanges` comes after
  `_context.Database.BeginTransaction()`, so it can never fire. The context
  is a non-null constant of the unit.
- C# overloads `Dispose(bool)` and `Dispose()`. Dafny has no overloading,
  so `Dispose(bool)` is named `DisposeCore`.

`SaveChanges` always begins a new transaction and never reuses an active
one. The unit of work has no public begin or rollback operation. Page sizes
of zero or less are not rejected.

## Model

| member | source | states |
|---|---|---|
| `Int32.Wrap` | Company.Application.Common/Paging/PagedList.cs:35 | The 32-bit result of unchecked `int` arithmetic is congruent to the exact value modulo 2^32, and equals it when it fits |
| `Paging.CeilDiv` | Company.Application.Common/Paging/PagedList.cs:66-67 | The page count is the ceiling of items / size: `(r-1)*b < a <= r*b` for a positive size (mirrored for a negative one), and it stays within `[0, a]` (or `[-a, 0]`) |
| `Paging.CeilDivUnique` | Company.Application.Common/Paging/PagedList.cs:66-67 | Any k with `(k-1)*b < a <= k*b` is the page count; the bounds characterise it |
| `Paging.PagedList.TotalPages` | Company.Application.Common/Paging/PagedList.cs:66-67 | For a positive page size the count is the least number of pages holding all items; it is 0 exactly when there are no items; a negative size gives a count of at most 0 |
| `Paging.PagedList.HasPreviousPage` | Company.Application.Common/Paging/PagedList.cs:72 | For a positive page size, a previous page exists exactly when the page does not start at the first element (its skip count is positive) |
| `Paging.PagedList.HasNextPage` | Company.Application.Common/Paging/PagedList.cs:77 | For a positive page size, a next page exists exactly when elements remain after the first `PageNumber` full pages (`PageSize * PageNumber < TotalItems`) |
| `Paging.PagedList.NextPageNumber` | Company.Application.Common/Paging/PagedList.cs:77-83 | Never beyond `TotalPages`; it is `PageNumber + 1` (equivalently, greater than `PageNumber`) exactly when `HasNextPage`, and `TotalPages` otherwise (0 for an empty source, the last page for a page past the end) |
| `Paging.PagedList.PreviousPageNumber` | Company.Application.Common/Paging/PagedList.cs:72-89 | Always at least 1; it is `PageNumber - 1` (equivalently, below `PageNumber`) exactly when `HasPreviousPage`, i.e. `PageNumber > 1`, and 1 otherwise |
| `Paging.PagedList.GetHeader` | Company.Application.Common/Paging/PagedList.cs:95-100 | The header carries `TotalItems`, `PageNumber`, `PageSize`, `TotalPages` in constructor order, and for a positive size its page count agrees with its item count and size |
| `Paging.HeaderKeepsItsArguments` | Company.Application.Common/Paging/PagingHeader.cs:22-51 | The four get-only properties are exactly the constructor arguments, in order, and headers are equal only when all four properties are |
| `Paging.HeaderAcceptsInconsistentPageCount` | Company.Application.Common/Paging/PagingHeader.cs:22-29 | The header constructor validates nothing: a header whose page count contradicts its item count and size exists |
| `Paging.NewPagedList` | Company.Application.Common/Paging/PagedList.cs:21-38 | The constructor as written: `TotalItems` is the source count and page number and size are stored unclamped, whatever the page; the page holds at most `max(pageSize, 0)` elements |
| `Paging.NewPagedListWide` | Company.Application.Common/Paging/PagedList.cs:33-38 | The same constructor with the skip count computed without overflow; same stored values and length bound |
| `Paging.NewPagedListAgreesWithoutOverflow` | Company.Application.Common/Paging/PagedList.cs:33-38 | When `pageSize * (pageNumber - 1)` fits in 32 bits, the constructor as written and the corrected one build the same page |
| `Paging.OverflowedSkipReturnsMiddleOfSource` | Company.Application.Common/Paging/PagedList.cs:35 | 10 items, page size 5, page 0x33333335: the skip count wraps to 4, so a page far past `TotalPages` returns items 4..8 |
| `Paging.PageIsSlice` | Company.Application.Common/Paging/PagedList.cs:33-38 | For page number and size at least 1, the page is `source[size*(n-1) .. size*n]` clipped to the source |
| `Paging.PageLength` | Company.Application.Common/Paging/PagedList.cs:33-38 | The page has `max(0, min(size, TotalItems - size*(n-1)))` elements |
| `Paging.PageOccupancy` | Company.Application.Common/Paging/PagedList.cs:33-77 | Pages before the last are full; the last holds the non-empty remainder `TotalItems - size*(TotalPages-1)`; a page past the last is empty and has no next page, and is not an error |
| `Paging.PagesUpToIsPrefix` | Company.Application.Common/Paging/PagedList.cs:33-38 | Pages 1..k at a fixed size, concatenated, are the first `min(size*k, TotalItems)` source elements in order |
| `Paging.PagesPartitionSource` | Company.Application.Common/Paging/PagedList.cs:33-67 | Concatenating pages 1..TotalPages at a fixed size gives back the whole source in order |
| `Paging.LastOfFivePages` | Company.Application.Common/Paging/PagedList.cs:33-77 | 23 items in pages of 5: page 5 holds 3 items, there are 5 pages, no next page and a previous page |
| `Paging.EmptySourceFirstPage` | Company.Application.Common/Paging/PagedList.cs:33-77 | An empty source at page 1 of size 10: empty page, 0 pages, neither previous nor next page |
| `Links.CreateLink` | Company.Application.Common/Paging/PagingLinks.cs:70-79 | `rel` and `method` are copied verbatim; the href is the URL helper applied to route name, page number and page size and nothing else |
| `Links.GetLinks` | Company.Application.Common/Paging/PagingLinks.cs:39-60 | Between 1 and 3 links, `1 + [HasPreviousPage] + [HasNextPage]` of them; exactly one `self` link, on the current page; a `previousPage` link (to `PageNumber - 1`) first exactly when `HasPreviousPage`; a `nextPage` link (to `PageNumber + 1`) last exactly when `HasNextPage`; every link is a GET on route `default` with the list's page size; page 1 of at most one page yields only the self link |
| `Persistence.UnitofWork.constructor` | Company.Application.Common/UnitofWork/UnitofWork.cs:32-35 | The unit keeps the given context and starts not disposed, without touching the context |
| `Persistence.GenericRepository.constructor` | Company.Application.Common/Repository/GenericRepository.cs:31-35 | A repository keeps the context it was made for |
| `Persistence.UnitofWork.GetRepository` | Company.Application.Common/UnitofWork/UnitofWork.cs:46-49 | Each call returns a new repository bound to the unit's one shared context |
| `Persistence.UnitofWork.SaveChanges` | Company.Application.Common/UnitofWork/UnitofWork.cs:55-80 | The context's log grows by exactly `SaveChangesRun(tx, c)` for the next transaction number `tx`, which appears nowhere earlier; the result is `SaveChangesResult(c)`; the at-most-once disposal invariant is kept |
| `Persistence.UnitofWork.SaveWithin` | Company.Application.Common/UnitofWork/UnitofWork.cs:59-79 | The body of the `using` block, after a transaction was begun: the log gains the save, then the commit or the rollback, then the transaction's disposal, exactly as `SaveChangesRun` lists them, and the outcome is `SaveChangesResult` |
| `Persistence.SaveBeginsOnceAndKeepsContext` | Company.Application.Common/UnitofWork/UnitofWork.cs:57 | Every save makes exactly one attempt to begin a transaction and never disposes the context |
| `Persistence.SuccessfulSaveCommitsOnce` | Company.Application.Common/UnitofWork/UnitofWork.cs:67-71 | A save that returns a value committed exactly once and never rolled back, and the value is the count the context's save returned |
| `Persistence.FailedSaveRollsBackOnce` | Company.Application.Common/UnitofWork/UnitofWork.cs:73-78 | A save that throws after beginning commits nothing and attempts exactly one rollback; if the rollback succeeds, the exception is "Error on save changes " wrapping the save's or the commit's exception; if it throws, that exception escapes |
| `Persistence.TransactionDisposedOnce` | Company.Application.Common/UnitofWork/UnitofWork.cs:57-79 | Once begun, the transaction is the first event, no later-numbered transaction is mentioned, and it is disposed exactly once, as the last step, on success and failure alike |
| `Persistence.UnitofWork.DisposeCore` | Company.Application.Common/UnitofWork/UnitofWork.cs:90-100 | The first call marks the unit disposed and disposes the context only when `disposing`; every later call leaves the context alone; no call changes the transaction count |
| `Persistence.UnitofWork.Dispose` | Company.Application.Common/UnitofWork/UnitofWork.cs:102-106 | The context is disposed on the first call and never again; the unit is disposed afterwards; the transaction count is unchanged |
| `Persistence.ContextDisposedAtMostOnce` | Company.Application.Common/UnitofWork/UnitofWork.cs:90-106 | Under the unit's invariant the context has been disposed at most once since the unit was made, and not at all while the unit is not disposed |

## Findings

| source | as written | input that shows it | evidently intended | confidence | as-written member | corrected member |
|---|---|---|---|---|---|---|
| Company.Application.Common/Paging/PagedList.cs:35 | `Skip(pageSize * (pageNumber - 1))` multiplies two `int`s unchecked, so the skip count wraps modulo 2^32 | 10 items, `pageSize` 5, `pageNumber` 858993461 (0x33333335): 5 * 858993460 = 2^32 + 4 wraps to 4, and the page is items 4..8 although there are only 2 pages | a page past the last one is empty (proved for the corrected constructor in `Paging.PageOccupancy`) | not executed; assumes LINQ to Objects `Skip`, and an SQL provider may reject a negative offset instead | `Paging.OverflowedSkipReturnsMiddleOfSource` | `Paging.NewPagedListWide` |

## Left out

- Paging.NewPagedList: its own contract bounds only the page length. The slice itself is proved for `NewPagedListWide`, and `NewPagedListAgreesWithoutOverflow` carries it over whenever the skip count does not overflow.
- Page size zero: `TotalPages`, `HasNextPage`, `NextPageNumber`, `GetHeader` and `GetLinks` require `PageSize != 0`. In C# the division by `0.0` gives infinity or NaN, and converting that to `int` is unspecified.
- Sources longer than `int.MaxValue`: the constructors require `|source| <= int.MaxValue`, where `Count()` would overflow.
- Query translation and ordering: the `IQueryable` source is a sequence with a fixed order. How a database provider translates `Skip`/`Take` is not modelled.
- `PagingHeader.ToJson`: JSON serialisation by a foreign library.
- `IUrlHelper.Link`: it is a parameter. URL generation is left to the web framework.
- `GenericRepository` operations (`GetAll`, `Find`, `Add`, `Update`, `Delete`): each is one call into the ORM's change tracker, whose staging is not visible. Only the repository's binding to the shared context is modelled, not the `DbSet<T>` it takes from the context.
- What a commit does to the stored data: only the calls the unit of work makes and their outcomes are modelled, not the durability of staged changes.
- `GC.SuppressFinalize` in `Dispose()`: it only affects the runtime's finaliser queue.
- Exceptions thrown by disposing a transaction or the context: these calls always succeed in the model.
- Controllers, `ApiBase`, mapping, identity, SignalR messaging and startup configuration: they are framework plumbing around the modelled core.
