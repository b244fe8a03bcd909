/** `UnitOfWork`: one optional open transaction (the transaction slot) and
    six repositories created on first use. A transaction and a repository
    instance are identified by a number supplied by the caller, standing for
    the object the database or the constructor hands back. */
module UnitOfWorks {
  import opened Base
  import opened ApiResponses

  /** The six lazily created repository properties. */
  datatype RepositoryName =
    | CategoryRepository | SectionRepository | ContentRepository
    | VocabularyRepository | VocabularyExampleRepository | RoleRepository

  /** How a transaction left the slot. */
  datatype Ending = Committed(tx: nat) | RolledBack(tx: nat)

  /** The slot, the transactions ended so far (oldest first), and the
      repositories created so far. */
  datatype UnitOfWork = UnitOfWork(slot: Option<nat>, ended: seq<Ending>, repositories: map<RepositoryName, nat>)

  const Initial: UnitOfWork := UnitOfWork(None, [], map[])

  /** What the database facade throws when a transaction is begun on a
      connection that already has one. */
  const TransactionAlreadyStarted: Exception :=
    Exception("The connection is already in a transaction and cannot participate in another transaction.", None)

  /** `BeginTransactionAsync`: with the slot empty, the new transaction
      takes it. With a transaction open, `Database.BeginTransactionAsync`
      throws before the assignment, so the exception escapes and the open
      transaction stays in the slot. */
  function Begin(u: UnitOfWork, tx: nat): (r: (Option<Exception>, UnitOfWork))
    ensures r.0.Some? <==> u.slot.Some?
    ensures r.0.Some? ==> r.0.value == TransactionAlreadyStarted && r.1 == u
    ensures r.0.None? ==> r.1 == u.(slot := Some(tx))
  {
    if u.slot.Some? then (Some(TransactionAlreadyStarted), u) else (None, u.(slot := Some(tx)))
  }

  /** `CommitTransactionAsync`: commits and clears an open transaction; does
      nothing when the slot is empty. */
  function Commit(u: UnitOfWork): (r: UnitOfWork)
    ensures r.slot.None? && r.repositories == u.repositories
    ensures u.slot.None? ==> r == u
    ensures u.slot.Some? ==> r.ended == u.ended + [Committed(u.slot.value)]
  {
    match u.slot
    case None => u
    case Some(tx) => u.(slot := None, ended := u.ended + [Committed(tx)])
  }

  /** `RollbackTransactionAsync`: rolls back and clears an open transaction;
      does nothing when the slot is empty. */
  function Rollback(u: UnitOfWork): (r: UnitOfWork)
    ensures r.slot.None? && r.repositories == u.repositories
    ensures u.slot.None? ==> r == u
    ensures u.slot.Some? ==> r.ended == u.ended + [RolledBack(u.slot.value)]
  {
    match u.slot
    case None => u
    case Some(tx) => u.(slot := None, ended := u.ended + [RolledBack(tx)])
  }

  /** A repository property (`_x ??= new XRepository(...)`): the instance
      created earlier if there is one, otherwise `instance`, which is
      remembered. */
  function Repository(u: UnitOfWork, name: RepositoryName, instance: nat): (r: (nat, UnitOfWork))
    ensures name in u.repositories ==> r.0 == u.repositories[name] && r.1 == u
    ensures name !in u.repositories ==> r.0 == instance && r.1 == u.(repositories := u.repositories[name := instance])
  {
    if name in u.repositories then (u.repositories[name], u)
    else (instance, u.(repositories := u.repositories[name := instance]))
  }

  /** Every later access returns the instance the first access created,
      whatever instance the later access would have created. */
  lemma RepositorySameInstance(u: UnitOfWork, name: RepositoryName, first: nat, later: nat)
    ensures Repository(Repository(u, name, first).1, name, later).0 == Repository(u, name, first).0
    ensures Repository(Repository(u, name, first).1, name, later).1 == Repository(u, name, first).1
  {
  }

  /** Accessing one repository does not create or replace any other. */
  lemma RepositoriesIndependent(u: UnitOfWork, name: RepositoryName, other: RepositoryName, instance: nat)
    requires other != name
    ensures other in Repository(u, name, instance).1.repositories <==> other in u.repositories
    ensures other in u.repositories ==> Repository(u, name, instance).1.repositories[other] == u.repositories[other]
  {
  }

  /** Beginning a second transaction while the first is open throws and
      keeps the first, so a later commit or rollback ends the first one. */
  lemma BeginTwiceKeepsFirst(u: UnitOfWork, first: nat, second: nat)
    requires u.slot.None?
    ensures Begin(u, first).0.None?
    ensures Begin(Begin(u, first).1, second) == (Some(TransactionAlreadyStarted), Begin(u, first).1)
    ensures Commit(Begin(Begin(u, first).1, second).1).ended == u.ended + [Committed(first)]
    ensures Rollback(Begin(Begin(u, first).1, second).1).ended == u.ended + [RolledBack(first)]
  {
  }

  /** Beginning, then committing or rolling back, ends exactly the begun
      transaction and leaves the slot free for the next one. */
  lemma BeginThenEnd(u: UnitOfWork, tx: nat)
    requires u.slot.None?
    ensures Commit(Begin(u, tx).1) == u.(ended := u.ended + [Committed(tx)])
    ensures Rollback(Begin(u, tx).1) == u.(ended := u.ended + [RolledBack(tx)])
  {
  }

  /** Once the slot has been cleared, a further commit or rollback changes
      nothing. */
  lemma EndingTwiceIsEndingOnce(u: UnitOfWork)
    ensures Commit(Commit(u)) == Commit(u) && Rollback(Commit(u)) == Commit(u)
    ensures Rollback(Rollback(u)) == Rollback(u) && Commit(Rollback(u)) == Rollback(u)
  {
  }
}
