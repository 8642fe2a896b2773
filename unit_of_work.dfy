/** The unit of work: one shared database context, repositories bound to
    it, a save that runs inside its own transaction, and a dispose that
    releases the context once. The context and its transactions belong to
    the ORM; they are modelled as objects whose outcomes are not known in
    advance and that record every call made on them in a ghost log. */
module Persistence {
  import opened Int32
  import opened Wrappers
  import opened Counting

  /** An exception: one raised by the ORM or the database, or one that wraps
      another with a message. */
  datatype Exception =
    | DatabaseException(code: int)
    | WrappedException(message: string, inner: Exception)

  /** Message of the exception a failed save is wrapped in. */
  const SaveChangesErrorMessage: string := "Error on save changes "

  /** One call on the context or on one of its transactions, with what it
      did. Transactions are numbered in the order they were begun. */
  datatype Event =
    | TransactionBegun(tx: nat)
    | BeginFailed(error: Exception)
    | ChangesSaved(count: int32)
    | SaveFailed(error: Exception)
    | Committed(tx: nat)
    | CommitFailed(tx: nat, error: Exception)
    | RolledBack(tx: nat)
    | RollbackFailed(tx: nat, error: Exception)
    | TransactionDisposed(tx: nat)
    | ContextDisposed
  {
    /** Every transaction this event mentions was begun before the n-th. */
    predicate MentionsOnlyBelow(n: nat) {
      match this
      case TransactionBegun(t) => t < n
      case Committed(t) => t < n
      case CommitFailed(t, _) => t < n
      case RolledBack(t) => t < n
      case RollbackFailed(t, _) => t < n
      case TransactionDisposed(t) => t < n
      case _ => true
    }
  }

  predicate IsCommit(e: Event) { e.Committed? }
  predicate IsRollbackAttempt(e: Event) { e.RolledBack? || e.RollbackFailed? }
  predicate IsBeginAttempt(e: Event) { e.TransactionBegun? || e.BeginFailed? }
  predicate IsTransactionDisposal(e: Event) { e.TransactionDisposed? }
  predicate IsContextDisposal(e: Event) { e.ContextDisposed? }

  /** Number of events in `log` that satisfy `p`. */
  function Count(log: seq<Event>, p: Event -> bool): (n: nat)
    ensures n <= |log|
    ensures n == 0 <==> forall i :: 0 <= i < |log| ==> !p(log[i])
  {
    if log == [] then 0 else (if p(log[0]) then 1 else 0) + Count(log[1..], p)
  }

  lemma {:induction false} CountAppend(a: seq<Event>, b: seq<Event>, p: Event -> bool)
    ensures Count(a + b, p) == Count(a, p) + Count(b, p)
  {
    if a == [] {
      assert a + b == b;
    } else {
      assert (a + b)[1..] == a[1..] + b;
      CountAppend(a[1..], b, p);
    }
  }


  lemma CountOfFour(e0: Event, e1: Event, e2: Event, e3: Event, p: Event -> bool)
    ensures Count([e0, e1, e2, e3], p)
              == Indicator(p(e0)) + Indicator(p(e1)) + Indicator(p(e2)) + Indicator(p(e3))
  {
    assert [e3][1..] == [];
    assert Count([e3], p) == Indicator(p(e3));
    assert [e2, e3][1..] == [e3];
    assert Count([e2, e3], p) == Indicator(p(e2)) + Count([e3], p);
    assert [e1, e2, e3][1..] == [e2, e3];
    assert Count([e1, e2, e3], p) == Indicator(p(e1)) + Count([e2, e3], p);
    assert [e0, e1, e2, e3][1..] == [e1, e2, e3];
  }

  lemma CountOfFive(e0: Event, e1: Event, e2: Event, e3: Event, e4: Event, p: Event -> bool)
    ensures Count([e0, e1, e2, e3, e4], p)
              == Indicator(p(e0)) + Indicator(p(e1)) + Indicator(p(e2)) + Indicator(p(e3)) + Indicator(p(e4))
  {
    assert [e0, e1, e2, e3, e4][1..] == [e1, e2, e3, e4];
    CountOfFour(e1, e2, e3, e4, p);
  }

  /** Count of `p` over the run of a save, event by event. */
  lemma CountRun(tx: nat, c: Responses, p: Event -> bool)
    ensures var run := SaveChangesRun(tx, c);
            Count(run, p) == if |run| == 1 then Indicator(p(run[0]))
                             else if |run| == 4 then Indicator(p(run[0])) + Indicator(p(run[1])) + Indicator(p(run[2])) + Indicator(p(run[3]))
                             else Indicator(p(run[0])) + Indicator(p(run[1])) + Indicator(p(run[2])) + Indicator(p(run[3])) + Indicator(p(run[4]))
  {
    var run := SaveChangesRun(tx, c);
    if |run| == 1 {
      assert run[1..] == [];
    } else if |run| == 4 {
      CountOfFour(run[0], run[1], run[2], run[3], p);
      assert run == [run[0], run[1], run[2], run[3]];
    } else {
      CountOfFive(run[0], run[1], run[2], run[3], run[4], p);
      assert run == [run[0], run[1], run[2], run[3], run[4]];
    }
  }

  // ---------------------------------------------------------------------
  // The ORM's side: context and transaction
  // ---------------------------------------------------------------------

  /** The database context (`DbContext` with its `Database` facade). */
  class DbContext {
    /** Every call made on this context and its transactions, in order. */
    ghost var log: seq<Event>
    /** How many transactions have been begun; the next one gets this number. */
    ghost var transactions: nat

    ghost predicate Valid()
      reads this
    {
      forall i :: 0 <= i < |log| ==> log[i].MentionsOnlyBelow(transactions)
    }

    constructor ()
      ensures Valid() && log == [] && transactions == 0
    {
      log := [];
      transactions := 0;
    }

    /** `Database.BeginTransaction()`: opens a new transaction or throws. */
    method BeginTransaction() returns (r: Result<Transaction, Exception>)
      requires Valid()
      modifies this
      ensures Valid()
      ensures r.Success? ==> && fresh(r.value) && r.value.context == this
                             && r.value.id == old(transactions)
                             && transactions == old(transactions) + 1
                             && log == old(log) + [TransactionBegun(old(transactions))]
      ensures r.Failure? ==> transactions == old(transactions) && log == old(log) + [BeginFailed(r.error)]
    {
      var throws: bool := *;
      if throws {
        var e: Exception := *;
        r := Failure(e);
        log := log + [BeginFailed(e)];
      } else {
        var t := new Transaction(this, transactions);
        r := Success(t);
        log := log + [TransactionBegun(transactions)];
        transactions := transactions + 1;
      }
    }

    /** `SaveChanges()`: writes the tracked changes and returns how many
      entries were written, or throws. */
    method SaveChanges() returns (r: Result<int32, Exception>)
      requires Valid()
      modifies this
      ensures Valid() && transactions == old(transactions)
      ensures log == old(log) + [if r.Success? then ChangesSaved(r.value) else SaveFailed(r.error)]
    {
      var throws: bool := *;
      if throws {
        var e: Exception := *;
        r := Failure(e);
      } else {
        var n: int32 := *;
        r := Success(n);
      }
      log := log + [if r.Success? then ChangesSaved(r.value) else SaveFailed(r.error)];
    }

    /** `Dispose()`: releases the context. */
    method Dispose()
      requires Valid()
      modifies this
      ensures Valid() && transactions == old(transactions)
      ensures log == old(log) + [ContextDisposed]
    {
      log := log + [ContextDisposed];
    }
  }

  /** A database transaction (`IDbContextTransaction`). */
  class Transaction {
    ghost const id: nat
    const context: DbContext

    constructor (context: DbContext, ghost id: nat)
      ensures this.context == context && this.id == id
    {
      this.context := context;
      this.id := id;
    }

    /** `Commit()`: makes the transaction's changes durable, or throws. */
    method Commit() returns (r: Outcome<Exception>)
      requires context.Valid() && id < context.transactions
      modifies context
      ensures context.Valid() && context.transactions == old(context.transactions)
      ensures context.log == old(context.log) + [if r.Pass? then Committed(id) else CommitFailed(id, r.error)]
    {
      var throws: bool := *;
      if throws {
        var e: Exception := *;
        r := Fail(e);
      } else {
        r := Pass;
      }
      context.log := context.log + [if r.Pass? then Committed(id) else CommitFailed(id, r.error)];
    }

    /** `Rollback()`: discards the transaction's changes, or throws. */
    method Rollback() returns (r: Outcome<Exception>)
      requires context.Valid() && id < context.transactions
      modifies context
      ensures context.Valid() && context.transactions == old(context.transactions)
      ensures context.log == old(context.log) + [if r.Pass? then RolledBack(id) else RollbackFailed(id, r.error)]
    {
      var throws: bool := *;
      if throws {
        var e: Exception := *;
        r := Fail(e);
      } else {
        r := Pass;
      }
      context.log := context.log + [if r.Pass? then RolledBack(id) else RollbackFailed(id, r.error)];
    }

    /** `Dispose()`, run when the `using` block is left. */
    method Dispose()
      requires context.Valid() && id < context.transactions
      modifies context
      ensures context.Valid() && context.transactions == old(context.transactions)
      ensures context.log == old(context.log) + [TransactionDisposed(id)]
    {
      context.log := context.log + [TransactionDisposed(id)];
    }
  }

  // ---------------------------------------------------------------------
  // What one SaveChanges call does to the log
  // ---------------------------------------------------------------------

  /** How the ORM answers the calls one save makes: beginning the
      transaction, saving on the context, committing and rolling back. A
      call that is not made is not consulted. */
  datatype Responses = Responses(
    begin: Outcome<Exception>,
    save: Result<int32, Exception>,
    commit: Outcome<Exception>,
    rollback: Outcome<Exception>)
  {
    /** The save went through: the context saved and the commit succeeded. */
    predicate Saved() { save.Success? && commit.Pass? }

    /** The exception that made the save fail: the context's, or else the
        commit's. */
    function Cause(): Exception
      requires !Saved()
    {
      if save.Failure? then save.error else commit.error
    }
  }

  function RollbackEvent(tx: nat, rollback: Outcome<Exception>): Event {
    if rollback.Pass? then RolledBack(tx) else RollbackFailed(tx, rollback.error)
  }

  /** The events one `UnitofWork.SaveChanges` call records when it begins
      transaction number `tx` and the ORM answers with `c`. */
  function SaveChangesRun(tx: nat, c: Responses): seq<Event> {
    if c.begin.Fail? then
      [BeginFailed(c.begin.error)]
    else if c.save.Failure? then
      [TransactionBegun(tx), SaveFailed(c.save.error), RollbackEvent(tx, c.rollback), TransactionDisposed(tx)]
    else if c.commit.Pass? then
      [TransactionBegun(tx), ChangesSaved(c.save.value), Committed(tx), TransactionDisposed(tx)]
    else
      [TransactionBegun(tx), ChangesSaved(c.save.value), CommitFailed(tx, c.commit.error),
       RollbackEvent(tx, c.rollback), TransactionDisposed(tx)]
  }

  /** What that call returns or throws. */
  function SaveChangesResult(c: Responses): Result<int32, Exception> {
    if c.begin.Fail? then Failure(c.begin.error)
    else if c.Saved() then Success(c.save.value)
    else if c.rollback.Fail? then Failure(c.rollback.error)
    else Failure(WrappedException(SaveChangesErrorMessage, c.Cause()))
  }

  /** A save that returns a value saved once, committed once and never
      rolled back, and returns the context's own count. */
  lemma SuccessfulSaveCommitsOnce(tx: nat, c: Responses)
    requires SaveChangesResult(c).Success?
    ensures var run := SaveChangesRun(tx, c);
            && Count(run, IsCommit) == 1 && Count(run, IsRollbackAttempt) == 0
            && run[1] == ChangesSaved(SaveChangesResult(c).value)
            && c.save == Success(SaveChangesResult(c).value)
  {
    var run := SaveChangesRun(tx, c);
    CountRun(tx, c, IsCommit);
    CountRun(tx, c, IsRollbackAttempt);
  }

  /** A save that throws after beginning its transaction commits nothing
      and tries to roll back exactly once; when the rollback succeeds it
      throws "Error on save changes " wrapping the save's or the commit's
      exception, and otherwise the rollback's own exception. */
  lemma FailedSaveRollsBackOnce(tx: nat, c: Responses)
    requires SaveChangesResult(c).Failure? && c.begin.Pass?
    ensures var run, e := SaveChangesRun(tx, c), SaveChangesResult(c).error;
            && Count(run, IsCommit) == 0
            && Count(run, IsRollbackAttempt) == 1
            && (RolledBack(tx) in run ==>
                  && e == WrappedException(SaveChangesErrorMessage, e.inner)
                  && (SaveFailed(e.inner) in run || CommitFailed(tx, e.inner) in run))
            && (RollbackFailed(tx, e) in run || RolledBack(tx) in run)
  {
    var run := SaveChangesRun(tx, c);
    CountRun(tx, c, IsCommit);
    CountRun(tx, c, IsRollbackAttempt);
    assert run[1] == if c.save.Success? then ChangesSaved(c.save.value) else SaveFailed(c.save.error);
    assert run[|run| - 2] == RollbackEvent(tx, c.rollback);
    if c.save.Success? {
      assert run[2] == CommitFailed(tx, c.commit.error);
    }
  }

  /** Whenever a transaction is begun, it is the only one the call uses, and
      it is disposed exactly once, as the last step. */
  lemma TransactionDisposedOnce(tx: nat, c: Responses)
    requires c.begin.Pass?
    ensures var run := SaveChangesRun(tx, c);
            && run[0] == TransactionBegun(tx) && run[|run| - 1] == TransactionDisposed(tx)
            && Count(run, IsTransactionDisposal) == 1
            && forall i :: 0 <= i < |run| ==> run[i].MentionsOnlyBelow(tx + 1)
  {
    var run := SaveChangesRun(tx, c);
    CountRun(tx, c, IsTransactionDisposal);
  }

  /** Every call makes exactly one attempt to begin a transaction, and none
      disposes the context. */
  lemma SaveBeginsOnceAndKeepsContext(tx: nat, c: Responses)
    ensures Count(SaveChangesRun(tx, c), IsBeginAttempt) == 1
    ensures Count(SaveChangesRun(tx, c), IsContextDisposal) == 0
  {
    var run := SaveChangesRun(tx, c);
    CountRun(tx, c, IsBeginAttempt);
    CountRun(tx, c, IsContextDisposal);
  }

  // ---------------------------------------------------------------------
  // The unit of work
  // ---------------------------------------------------------------------

  /** `GenericRepository<T>`: a repository over the context it was made for. */
  class GenericRepository<T> {
    const context: DbContext

    constructor (context: DbContext)
      ensures this.context == context
    {
      this.context := context;
    }
  }

  class UnitofWork {
    const context: DbContext
    var disposed: bool
    /** Length of the context's log when this unit was made. */
    ghost const start: nat

    /** The context is disposed at most once by this unit, and not at all
      before the unit is disposed. */
    ghost predicate Valid()
      reads this, context
    {
      && context.Valid()
      && start <= |context.log|
      && Count(context.log[start..], IsContextDisposal) <= Indicator(disposed)
    }

    constructor (context: DbContext)
      requires context.Valid()
      ensures Valid() && this.context == context && !disposed
      ensures context.log == old(context.log)
    {
      this.context := context;
      this.disposed := false;
      this.start := |context.log|;
    }

    /** A new repository for entity type T on the shared context. */
    method GetRepository<T>() returns (repository: GenericRepository<T>)
      ensures fresh(repository) && repository.context == context
    {
      repository := new GenericRepository<T>(context);
    }

    /** Saves the tracked changes inside a transaction of its own; `c`
        records how the ORM answered. */
    method SaveChanges() returns (r: Result<int32, Exception>, ghost c: Responses)
      requires Valid()
      modifies context
      ensures Valid()
      ensures context.transactions == old(context.transactions) + (if c.begin.Pass? then 1 else 0)
      // The transaction it begins appears nowhere earlier in the log.
      ensures forall i :: 0 <= i < |old(context.log)| ==> old(context.log)[i].MentionsOnlyBelow(old(context.transactions))
      ensures context.log == old(context.log) + SaveChangesRun(old(context.transactions), c)
      ensures r == SaveChangesResult(c)
    {
      ghost var log0 := context.log;
      ghost var tx := context.transactions;
      c := Responses(Pass, Failure(DatabaseException(0)), Pass, Pass);
      var begun := context.BeginTransaction();
      if begun.Failure? {
        c := c.(begin := Fail(begun.error));
        r := Failure(begun.error);
        assert context.log == log0 + SaveChangesRun(tx, c);
      } else {
        r, c := SaveWithin(begun.value, log0);
      }
      SaveBeginsOnceAndKeepsContext(tx, c);
      AppendKeepsDisposals(log0, start, SaveChangesRun(tx, c), Indicator(disposed));
    }

    /** The body of the `using` block: save and commit, or else roll back
        and wrap the cause; the transaction is disposed on every path. */
    method SaveWithin(transaction: Transaction, ghost log0: seq<Event>) returns (r: Result<int32, Exception>, ghost c: Responses)
      requires transaction.context == context && context.Valid() && transaction.id < context.transactions
      requires context.log == log0 + [TransactionBegun(transaction.id)]
      modifies context
      ensures context.Valid() && context.transactions == old(context.transactions)
      ensures c.begin.Pass? && context.log == log0 + SaveChangesRun(transaction.id, c)
      ensures r == SaveChangesResult(c)
    {
      c := Responses(Pass, Failure(DatabaseException(0)), Pass, Pass);
      var saved := context.SaveChanges();
      c := c.(save := saved);
      var cause: Exception;
      var committed := false;
      if saved.Success? {
        var commit := transaction.Commit();
        c := c.(commit := commit);
        if commit.Pass? {
          committed := true;
        } else {
          cause := commit.error;
        }
      } else {
        cause := saved.error;
      }
      if committed {
        r := Success(saved.value);
      } else {
        var rollback := transaction.Rollback();
        c := c.(rollback := rollback);
        if rollback.Pass? {
          r := Failure(WrappedException(SaveChangesErrorMessage, cause));
        } else {
          r := Failure(rollback.error);
        }
      }
      transaction.Dispose();
    }

    /** `Dispose(bool disposing)`: the first call marks the unit disposed
      and, when `disposing`, disposes the context; later calls do nothing. */
    method DisposeCore(disposing: bool)
      requires Valid()
      modifies this, context
      ensures Valid() && disposed
      ensures context.log == old(context.log) + (if !old(disposed) && disposing then [ContextDisposed] else [])
      ensures context.transactions == old(context.transactions)
    {
      if !disposed {
        if disposing {
          ghost var before := context.log;
          context.Dispose();
          CountAppend(before[start..], [ContextDisposed], IsContextDisposal);
          assert context.log[start..] == before[start..] + [ContextDisposed];
        }
      }
      disposed := true;
    }

    /** `Dispose()`: the context is disposed by the first call only. */
    method Dispose()
      requires Valid()
      modifies this, context
      ensures Valid() && disposed
      ensures context.log == old(context.log) + (if old(disposed) then [] else [ContextDisposed])
      ensures context.transactions == old(context.transactions)
    {
      DisposeCore(true);
    }
  }

  /** Appending events that do not dispose the context keeps the number
      of disposals since `start`. */
  lemma AppendKeepsDisposals(log: seq<Event>, start: nat, run: seq<Event>, bound: nat)
    requires start <= |log| && Count(log[start..], IsContextDisposal) <= bound
    requires Count(run, IsContextDisposal) == 0
    ensures Count((log + run)[start..], IsContextDisposal) <= bound
  {
    assert (log + run)[start..] == log[start..] + run;
    CountAppend(log[start..], run, IsContextDisposal);
  }

  /** Under the unit's invariant the context has been disposed at most once
      since the unit was made. */
  lemma ContextDisposedAtMostOnce(log: seq<Event>, start: nat, disposed: bool)
    requires start <= |log| && Count(log[start..], IsContextDisposal) <= Indicator(disposed)
    ensures Count(log[start..], IsContextDisposal) <= 1
    ensures !disposed ==> forall i :: start <= i < |log| ==> log[i] != ContextDisposed
  {
    if !disposed {
      forall i | start <= i < |log| ensures log[i] != ContextDisposed {
        assert log[start..][i - start] == log[i];
      }
    }
  }
}
