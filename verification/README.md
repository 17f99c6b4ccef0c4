# SQLx: transactions, migrations and argument buffers, verified

SQLx is an asynchronous SQL toolkit. Around its I/O it contains a number of small protocols and
algorithms whose correctness only shows over whole runs. This project models them in Dafny and proves
what they keep.

| file | models |
|---|---|
| `Savepoints`, `SavepointTexts`, `Transactions` | nested transactions over named savepoints, queued rollbacks, on PostgreSQL and MySQL |
| `Migrations`, `Migrator`, `MigratorProperties`, `UpDown` | `Migrator::run_direct` and `undo` on a driver with transactional migrations |
| `MigrateCli` | `sqlx migrate run` and `sqlx migrate revert` with targets and dry runs |
| `MySqlMigrate` | `apply`, `revert`, `run_direct` and `undo` on the MySQL driver, which may stop between any two steps |
| `MySqlHistory` | what any number of such sessions do to the statements that took effect |
| `ConcurrentMigrators` | any number of PostgreSQL migrators under the advisory lock |
| `MigrationFiles`, `MigrateAdd` | migration file names, `resolve_blocking`, and runs of `sqlx migrate add` |
| `ForeignKeys` | the insertion order of test fixtures |
| `Dependents` | which packages `cargo sqlx prepare` recompiles |
| `PgArguments`, `MySqlArguments` | the argument buffers of Bind and COM_STMT_EXECUTE |
| `StatementCache`, `AsyncStream`, `QueryBuilder` | the LRU statement cache, the generator stream, the query builder |
| `Basics`, `Decimal` | shared definitions, decimal text |

Where the source changes state the model is a class or a method with loops. Its `ensures` ties the new
state to a specification function, and the theorems are lemmas about that function.

The main theorems are `Savepoints.RunRefines` and `Savepoints.DropsAreRollbacks`, carried over to the
texts that are sent by `SavepointTexts.QueueRefines`; `MigratorProperties.RunAppliesPrefix`,
`UpDown.UndoRestores`, `MigrateCli.StagedRunsAgreeIff`, `MySqlHistory.Sessions` with
`MySqlHistory.UndoKeepsIff`, `ConcurrentMigrators.AtMostOnce` with its counterpart
`ConcurrentMigrators.GetsThrough`, `MigrateAdd.AddsCountUpIff`, `ForeignKeys.VisitOrder`,
`Dependents.RecompileAction`, `PgArguments.ReadWhatWasWritten`, `PgArguments.PatchFills`,
`StatementCache.RunKeeps` and `StatementCache.RunFinds`, and `AsyncStream.NothingLostOrRepeated`.

## Reading the models

- *Savepoints.* A statement is a constructor of `Sql` with a savepoint number. `TextRefines` and
  `QueueRefines` justify this: a server that reads the text which is sent, and knows savepoints by name
  only, makes the same steps. The visible data is the list of writes in effect, of which any
  other notion of content is a function. `Allowed` lists what a caller can do: end only an open
  transaction, and not nest a transaction into a PostgreSQL block that a failed statement has aborted.
  The second exclusion is exact (`NestedBeginKeepsDepthIff`).
- *Migrator.* The schema type is a parameter and scripts are arbitrary partial functions on it.
  Equal results for every schema type therefore mean equal sequences of applied scripts.
- *MySQL migrations.* `Session.budget` is the number of steps the server still takes, so a
  quantification over budgets is one over crash points. The log holds every script statement that
  became durable. `RunEnds` and `UndoEnds` say how a command ends: refused, finished (exactly when it
  has the steps and nothing stands in the way), or stopped at one determined migration.
- *Orders that a hash map chooses* come from `Basics.Pick` or from the order of a sequence in the
  input, and the contracts hold for every choice.

## What the code does not promise

Some natural statements are false of the code. Each has its exact condition.

- A nested PostgreSQL `begin` that fails also gives up the enclosing depth, because its guard acts on a
  depth that was not incremented yet (`NestedBeginKeepsDepthIff`). A later commit of the outer transaction
  can then report success after its data is gone (`FailedNestedBeginLosesCommit`).
- A COMMIT of an aborted PostgreSQL block succeeds and rolls back (the `OpCommit` case of `StackStep`).
- With two pending migrations of the same version, stopping at a target in between changes the result
  (`StagedRunsAgreeIff`).
- An `undo` that finishes runs both down scripts of a version that has two, and then table and history
  disagree for good; it keeps them in step if and only if the down scripts of the applied versions above
  the target have distinct versions (`UndoKeepsIff`, `UnsafeBreaks`).
- A file name gives back its description only under `Recoverable` (`RoundTripIff`).
- Adding more than one simple migration counts 1, 2, 3, ... if and only if the first description does
  not end in `.up` or `.down` and none between the first and the last ends in `.down`
  (`AddsCountUpIff`); reversible migrations, and a single add, always do. After a
  first description `x.up` the next `add` creates a pair. A later description `x.down` is taken for a
  down migration, and the add after it is given the same number again.
- A statement cache of capacity 0 loses what is inserted (`InsertAccountsIff`) and never finds anything
  (`NoRoom`).

## Model

| member | source | states |
|---|---|---|
| SavepointTexts.NameOfNumber | sqlx-core/src/transaction.rs:277-302 | a savepoint is named by the fixed prefix and decimal digits whose value is its number, and different numbers have different names |
| SavepointTexts.ReadText | sqlx-core/src/transaction.rs:277-302 | a reader that knows the SQL keywords gets back from each text the kind of the statement and the name of its savepoint |
| SavepointTexts.TextInjective | sqlx-core/src/transaction.rs:277-302 | the SQL texts chosen from the depth are equal if and only if the statements and their savepoint numbers are |
| SavepointTexts.TextRefines | sqlx-core/src/transaction.rs:277-302 | a server that executes the text, with savepoints known by name, makes the same step with the same reply as the numbered one |
| SavepointTexts.QueueRefines | sqlx-core/src/transaction.rs:277-302 | so does a whole queue of texts, sent in order |
| Savepoints.LiveFind | sqlx-core/src/transaction.rs:285-302 | although stale savepoints of the same names are left behind, the last savepoint of the current name holds the data its transaction began with, and all later ones are stale |
| Savepoints.SavepointKeeps | sqlx-core/src/transaction.rs:277-283 | a new savepoint, shadowing (PostgreSQL) or replacing (MySQL) its stale namesakes, keeps every enclosing savepoint live |
| Savepoints.ReleaseKeeps | sqlx-core/src/transaction.rs:285-291 | RELEASE keeps the enclosing savepoints live whether or not the server drops the later ones |
| Savepoints.ExecBeginSql | sqlx-core/src/transaction.rs:277-283 | the begin statement for the depth is accepted and pushes the current data on the stack |
| Savepoints.ExecCommitSql | sqlx-core/src/transaction.rs:285-291 | the commit statement pops the stack and keeps the data; an aborted outermost block is rolled back yet accepted, an aborted nested one is refused |
| Savepoints.ExecRollbackSql | sqlx-core/src/transaction.rs:293-302 | the rollback statement is accepted, restores the data and the abort flag, and pops |
| Savepoints.StartRollbackSimulates | sqlx-postgres/src/transaction.rs:73-80 | queueing a rollback leaves the connection in the state that rolling back at once would, as far as anything sent later can see |
| Savepoints.FlushAccepted | sqlx-postgres/src/connection/mod.rs:83-97 | when every queued statement is accepted, waiting leaves nothing to send and no reply unread |
| Savepoints.ReplyAt | sqlx-postgres/src/connection/mod.rs:83-97 | there is one reply per queued statement, and the i-th is the answer of the server in the state that the statements before it left |
| Savepoints.ReadUpToError | sqlx-postgres/src/connection/mod.rs:88-94 | waiting succeeds if and only if no reply is an error; otherwise exactly the replies after the first error stay unread |
| Savepoints.NotSentAfterError | sqlx-postgres/src/connection/executor.rs:203-204 | everything queued is sent whatever the replies are; after an error among them the waiting statement is not sent |
| Savepoints.NothingToEnd | sqlx-postgres/src/transaction.rs:45-80 | commit, rollback and drop without an open transaction send nothing and change nothing |
| Savepoints.FailedBeginDepth | sqlx-postgres/src/transaction.rs:18-43 | by how much the depth changes when begin succeeds, and when it fails for any reason, on either driver |
| Savepoints.BeginRefines | sqlx-postgres/src/transaction.rs:18-43 | begin, custom ones and refused ones included, agrees with a push on the stack |
| Savepoints.CommitRefines | sqlx-core/src/transaction.rs:116-122 | commit, and a failed commit followed by the drop of the still open value, agrees with the stack |
| Savepoints.StepRefines | sqlx-core/src/transaction.rs:116-129 | every operation gives the caller the outcome that the stack of snapshots gives, and keeps the two in step |
| Savepoints.EndLowersDepthOnce | sqlx-core/src/transaction.rs:116-129 | commit, failed commit, rollback and drop each lower the depth by exactly one |
| Savepoints.RunRefines | sqlx-core/src/transaction.rs:277-302 | every run of begins, writes, commits, rollbacks and drops shows the outcomes and the data of a stack of snapshots, on PostgreSQL and under both readings of MySQL |
| Savepoints.ConnectSimulates | sqlx-postgres/src/transaction.rs:18-43 | a new connection represents the empty stack, so the theorems apply from the start |
| Savepoints.DropsAreRollbacks | sqlx-core/src/transaction.rs:260-275 | a run with drops is indistinguishable, at every step, from the run that awaits a rollback instead, and leaves the same depth, visible and durable data |
| Savepoints.RollbackUndoesEverything | sqlx-core/src/transaction.rs:260-275 | begin, any nested activity, then rollback or drop leaves the connection as if nothing had happened |
| Savepoints.CrashKeepsCommitted | sqlx-core/src/transaction.rs:264-273 | at any point of any run the durable data is what was there when the outermost open transaction began, queued rollbacks or not |
| Savepoints.NestedBeginKeepsDepthIff | sqlx-postgres/src/transaction.rs:32-39 | a nested begin leaves the depth equal to the number of open transactions if and only if the block is not aborted |
| Savepoints.DropsThenCommit | sqlx-core/src/transaction.rs:260-275 | dropping any number k of the innermost transactions and then committing reports success; the data is as it was when the k-th innermost began, and one more transaction is gone if one was left |
| Savepoints.FailedNestedBeginLosesCommit | sqlx-postgres/src/transaction.rs:92-97 | at every depth: after a failed nested begin, dropping the inner transactions and committing the outermost reports success and everything it wrote is gone; without the begin it keeps what it wrote before the second one began |
| Transactions.Connection.constructor | sqlx-postgres/src/transaction.rs:18-43 | a new connection represents the empty stack |
| Transactions.Connection.WaitUntilReady | sqlx-postgres/src/connection/mod.rs:83-97 | sends everything that is queued, first in, first out, and reads replies up to the first error, leaving the ones after it for the next call |
| Transactions.Connection.Write | sqlx-postgres/src/connection/executor.rs:203-204 | a statement is sent only after the queue was accepted, so it is one write operation of the run |
| Transactions.Connection.Begin | sqlx-postgres/src/transaction.rs:18-43 | the in-place begin, guard included, is the step of the model that the theorems are about |
| Transactions.Connection.Commit | sqlx-mysql/src/transaction.rs:42-53 | the in-place commit lowers the depth only after the server accepted it |
| Transactions.Connection.Rollback | sqlx-mysql/src/transaction.rs:55-66 | the in-place rollback lowers the depth only after the server accepted it |
| Transactions.Connection.StartRollback | sqlx-mysql/src/transaction.rs:68-81 | queues the rollback of the current depth behind what is queued already and lowers the depth at once |
| Transactions.Transaction.Commit | sqlx-core/src/transaction.rs:116-122 | one commit operation of the run, with the drop on failure |
| Transactions.Transaction.Rollback | sqlx-core/src/transaction.rs:124-129 | one rollback operation of the run, with the drop on failure |
| Transactions.Transaction.Drop | sqlx-core/src/transaction.rs:260-275 | queues a rollback exactly when the transaction is still open |
| Migrations.Bounds | sqlx-cli/src/migrate.rs:300-304 | the least and the greatest of a set of versions, none exactly when it is empty, in any reading order |
| Migrations.LeastUnique | sqlx-postgres/src/migrate.rs:135-146 | the least version is unique, so the reported dirty version is determined |
| Migrations.DirtyVersion | sqlx-mysql/src/migrate.rs:99-110 | the least version whose row is not successful, if any |
| Migrations.ValidateApplied | sqlx-core/src/migrate/migrator.rs:28-45 | the least applied version unknown to the migrator, if any and unless missing ones are ignored |
| Migrations.AcceptedIff | sqlx-core/src/migrate/migrator.rs:28-45 | a table is accepted if and only if every row is successful and every applied version is that of some migration, unless missing ones are ignored |
| Migrations.DirtyRefusal | sqlx-core/src/migrate/migrator.rs:155-158 | a version is reported as dirty if and only if it is the least that is not successful |
| Migrations.MissingRefusal | sqlx-core/src/migrate/migrator.rs:160-161 | a version is reported as missing if and only if nothing is dirty, missing ones are not ignored, and it is the least applied version of no migration |
| Migrations.MismatchIff | sqlx-cli/src/migrate.rs:322-327 | a first changed migration is found if and only if some applied migration has another checksum now |
| Migrations.MismatchIsFirst | sqlx-core/src/migrate/migrator.rs:168-177 | the changed migration that is reported is the first one in the list |
| Migrations.RecordLookup | sqlx-postgres/src/migrate.rs:275-298 | old rows stay as they were and each applied migration is recorded with its own checksum |
| Migrator.Database.ApplyMigration | sqlx-postgres/src/migrate.rs:206-248 | script and row take effect together or not at all; a row that is there already is an error |
| Migrator.Database.RevertMigration | sqlx-postgres/src/migrate.rs:250-272 | down script and deletion take effect together or not at all |
| Migrator.Database.Check | sqlx-core/src/migrate/migrator.rs:155-163 | dirty versions are reported before missing ones |
| Migrator.Database.ApplyPending | sqlx-core/src/migrate/migrator.rs:168-183 | the loop of run as a function of the list read before it; a dry run changes nothing and reports the first changed migration |
| Migrator.Database.RunDirect | sqlx-core/src/migrate/migrator.rs:142-192 | the whole command as the function that the theorems are about |
| Migrator.Database.UndoTo | sqlx-core/src/migrate/migrator.rs:211-257 | the whole of undo, last script first |
| MigratorProperties.RunAppliesPrefix | sqlx-core/src/migrate/migrator.rs:168-183 | however the run ends, with or without a target, exactly a prefix of the pending migrations, in order, has been applied to schema and table; on success all of them |
| MigratorProperties.RunStopsFor | sqlx-core/src/migrate/migrator.rs:168-183 | the error of a run that stops names a changed migration, or the first pending one not applied, whose script failed or whose version was recorded already |
| MigratorProperties.MismatchStops | sqlx-core/src/migrate/migrator.rs:172-177 | a changed migration stops every run of the loop, with any target |
| MigratorProperties.RunSucceedsIff | sqlx-core/src/migrate/migrator.rs:168-183 | the loop succeeds if and only if no applied migration was changed, no two pending ones up to the target share a version, and their scripts succeed in order |
| MigratorProperties.AfterRun | sqlx-core/src/migrate/migrator.rs:155-183 | a successful run applies all pending migrations and leaves a table that the next command accepts |
| MigratorProperties.NothingPending | sqlx-core/src/migrate/migrator.rs:168-183 | when everything is recorded the loop succeeds and changes nothing, with any target |
| MigratorProperties.SecondRunDoesNothing | sqlx-core/src/migrate/migrator.rs:142-192 | after a successful run everything is recorded with its checksum, and running again succeeds and changes nothing |
| MigratorProperties.StillAccepted | sqlx-core/src/migrate/migrator.rs:155-163 | recording migrations of the migrator's own never makes the next run refuse |
| UpDown.UndoReverts | sqlx-core/src/migrate/migrator.rs:240-248 | undo runs exactly the down scripts of applied versions above the target, last first |
| UpDown.UndoRevertsSuffix | sqlx-core/src/migrate/migrator.rs:240-248 | however an undo ends, exactly a suffix of the selected down scripts ran, last to first, each with the removal of its row; it succeeds if and only if that is all, and otherwise names the script that failed |
| UpDown.DownsSorted | sqlx-core/src/migrate/source.rs:141-142 | in a migrator sorted by version, the scripts to undo ascend |
| UpDown.Paired | sqlx-core/src/migrate/migrator.rs:240-248 | the k-th script to undo is the inverse of the k-th script that the run applied |
| UpDown.RevertAllRestores | sqlx-postgres/src/migrate.rs:250-272 | reverting mirrored scripts from last to first restores table and schema |
| UpDown.UndoRestores | sqlx-core/src/migrate/migrator.rs:211-257 | if the target separates the applied versions from the pending ones and each pending one has exactly one down script, inverting it, then undo after a successful run restores the whole database |
| MigrateCli.Latest | sqlx-cli/src/migrate.rs:300-304 | the greatest applied version, or 0 |
| MigrateCli.LatestVersion | sqlx-cli/src/migrate.rs:300-304 | computes it in any reading order |
| MigrateCli.VersionExists | sqlx-core/src/migrate/migrator.rs:109-111 | whether some migration has the version |
| MigrateCli.RunCommand | sqlx-cli/src/migrate.rs:274-365 | the run command with its checks in order; a dry run leaves the database alone and still reports refusals and changed migrations |
| MigrateCli.RunAcceptedIff | sqlx-cli/src/migrate.rs:281-309 | run starts if and only if its target is the version of some migration and not below any applied version, and the table is accepted |
| MigrateCli.RevertAcceptedIff | sqlx-cli/src/migrate.rs:374-402 | revert starts if and only if its target is 0 or the version of some migration and not above the greatest applied version, and the table is accepted |
| MigrateCli.RefusalReasons | sqlx-cli/src/migrate.rs:281-309 | the reasons for a refusal are given in this order, each with its versions: unknown target, dirty or missing version, target too old or too new |
| MigrateCli.RevertCommand | sqlx-cli/src/migrate.rs:367-459 | the revert command; without a target it reverts one migration, and a dry run leaves the database alone and reports refusals only |
| MigrateCli.RevertsOne | sqlx-cli/src/migrate.rs:410-451 | without a target exactly one script runs, the last down script of an applied version, which in a sorted migrator has the greatest version: its row goes with it, or nothing changes when it fails |
| MigrateCli.NothingToRevert | sqlx-cli/src/migrate.rs:410-454 | without such a script revert succeeds and changes nothing |
| MigrateCli.RevertIsUndo | sqlx-cli/src/migrate.rs:410-451 | with an accepted target, revert ends exactly as the library's undo does |
| MigrateCli.DryRunPredicts | sqlx-cli/src/migrate.rs:313-355 | the run succeeds if and only if the dry run reports no error, the pending versions up to the target are distinct and their scripts succeed in order; a refusal is the same for both and changes nothing |
| MigrateCli.SnapshotSuffices | sqlx-cli/src/migrate.rs:297-314 | with distinct pending versions, deciding from the list read beforehand is deciding from the table itself |
| MigrateCli.StageThenRest | sqlx-cli/src/migrate.rs:328-337 | stopping at a target first changes neither the end state nor the error of the run without a target |
| MigrateCli.StagedRunsAgree | sqlx-cli/src/migrate.rs:274-355 | any sequence of targets, accepted or not, followed by a run without a target ends exactly as one run of the library |
| MigrateCli.OnlyDuplicatesStop | sqlx-cli/src/migrate.rs:328-337 | when scripts succeed and nothing was changed, only a second migration of a version can stop the loop |
| MigrateCli.DuplicateFailsOnce | sqlx-cli/src/migrate.rs:328-337 | a run that stops at a duplicate version does not stop there when it is repeated |
| MigrateCli.TopStageDisagrees | sqlx-cli/src/migrate.rs:274-355 | with a duplicate pending version, one stage through the greatest version makes the result differ |
| MigrateCli.StagedRunsAgreeIff | sqlx-cli/src/migrate.rs:274-355 | for scripts that succeed, all ways of staging agree if and only if the pending versions are distinct |
| MySqlMigrate.Session.RunScript | sqlx-mysql/src/migrate.rs:202-205 | completes if and only if the script is not empty and the steps suffice; otherwise what is durable is a prefix of it together with the row written before it, or nothing |
| MySqlMigrate.Session.Apply | sqlx-mysql/src/migrate.rs:170-242 | succeeds if and only if the version is not recorded, the script is not empty and the steps suffice; at every other end a durable statement implies a durable row, which says success only if the whole script is durable |
| MySqlMigrate.Session.Revert | sqlx-mysql/src/migrate.rs:244-286 | succeeds if and only if the script is not empty and the steps suffice; at every other end no down statement is durable while the row says success, and the row is gone only with the whole script |
| MySqlMigrate.Session.Check | sqlx-core/src/migrate/migrator.rs:155-163 | dirty versions are reported before missing ones |
| MySqlMigrate.Session.ApplyPending | sqlx-core/src/migrate/migrator.rs:168-183 | finishes if and only if nothing was changed, the pending versions are distinct, no script is empty and the steps suffice, and then exactly the pending scripts and rows were added in order; otherwise it stops at the first migration that was changed or could not be applied, with everything before it complete |
| MySqlMigrate.Session.RunDirect | sqlx-core/src/migrate/migrator.rs:142-192 | refused if and only if the table is dirty or has an unknown version, and then nothing changes; otherwise it ends as the loop does |
| MySqlMigrate.Session.RevertAbove | sqlx-core/src/migrate/migrator.rs:240-248 | finishes if and only if no script is empty and the steps suffice, with the selected down scripts run last to first and their rows gone; otherwise it stops at the first one that could not be reverted |
| MySqlMigrate.Session.Undo | sqlx-core/src/migrate/migrator.rs:211-257 | refused if and only if the table is dirty or has an unknown version, and then nothing changes; otherwise it ends as the loop does |
| MySqlHistory.ApplyKeeps | sqlx-mysql/src/migrate.rs:170-242 | every way apply can end keeps each version's history consistent with its row |
| MySqlHistory.RevertKeepsIff | sqlx-mysql/src/migrate.rs:244-286 | once a down statement took effect, the history is consistent if and only if the version was recorded |
| MySqlHistory.RunKeeps | sqlx-core/src/migrate/migrator.rs:142-192 | wherever a run stops, the table tells where each version stands |
| MySqlHistory.UndoKeeps | sqlx-core/src/migrate/migrator.rs:211-257 | wherever an undo stops, if no version that it reverts has two down scripts |
| MySqlHistory.UndoKeepsIff | sqlx-core/src/migrate/migrator.rs:240-248 | an undo that finishes keeps the history if and only if the down scripts of applied versions above the target have distinct versions |
| MySqlHistory.RepeatNeedsReturn | sqlx-mysql/src/migrate.rs:170-286 | in a consistent history a statement of a script took effect twice only if a statement of the opposite script of its version took effect in between |
| MySqlHistory.JobExtends | sqlx-core/src/migrate/migrator.rs:155-163 | a command only adds to the history, and a dirty database is refused and left as it is |
| MySqlHistory.TraceKeeps | sqlx-core/src/migrate/migrator.rs:142-257 | after any sequence of runs and undos, each ending anywhere, table and history agree, and no up or down statement was repeated without one of the opposite script in between |
| MySqlHistory.UnsafeBreaks | sqlx-core/src/migrate/migrator.rs:240-248 | after a finished undo of a version with two down scripts, no later command makes table and history agree again |
| MySqlHistory.Sessions | sqlx-core/src/migrate/migrator.rs:142-257 | any number of runs and undos, each stopping anywhere: every one ends as specified from where the one before it left off, the history only grows, it stays consistent and free of repetitions, and a dirty database is never changed |
| ConcurrentMigrators.CommitStep | sqlx-postgres/src/migrate.rs:217-225 | committing a migration keeps the invariant: the list read plus the client's own migrations is the table |
| ConcurrentMigrators.LoopKeeps | sqlx-core/src/migrate/migrator.rs:168-183 | so does every other step of the loop, failing or not |
| ConcurrentMigrators.AdvanceKeeps | sqlx-postgres/src/migrate.rs:170-204 | so do locking, checking, finishing and unlocking |
| ConcurrentMigrators.StepKeeps | sqlx-core/src/migrate/migrator.rs:142-192 | so does every step of any client, lost connections included |
| ConcurrentMigrators.AtMostOnce | sqlx-core/src/migrate/migrator.rs:142-192 | in every state of every interleaving each migration took effect at most once, the table is the initial one plus exactly those, one client at most is between lock and unlock, from reading its list until it unlocks that list plus its own migrations is the table, and a finished client has everything recorded |
| ConcurrentMigrators.GetsThrough | sqlx-core/src/migrate/migrator.rs:142-192 | from any state in which the lock is free, a waiting client whose table is accepted, with no changed migration and distinct pending versions, can proceed to its end: exactly the pending migrations take effect, in order, their rows are added and the lock is free again |
| ConcurrentMigrators.StopsIff | sqlx-core/src/migrate/migrator.rs:142-192 | in any reachable state a client stops at its next step if and only if that step fails, the table is dirty or has an unknown version, the migration was changed, or the client applied another one of that version |
| ConcurrentMigrators.NoForeignConflict | sqlx-postgres/src/migrate.rs:275-298 | the INSERT of a client never meets a row of another client |
| MigrationFiles.PadParses | sqlx-cli/src/migrate.rs:50-52 | the zero-padded prefix of any i64 version parses back to it |
| MigrationFiles.PadWidth | sqlx-cli/src/migrate.rs:50-52 | the prefix has at least four characters, and zeros in front only to get there |
| MigrationFiles.ParseI64Unsigned | sqlx-core/src/migrate/source.rs:104-108 | digits are the version that they denote if that is at most i64::MAX, and an error otherwise |
| MigrationFiles.ParseI64Minus | sqlx-core/src/migrate/source.rs:104-108 | after a minus sign they denote its negative, down to i64::MIN |
| MigrationFiles.NameIsRead | sqlx-core/src/migrate/source.rs:97-116 | how any file name is read: ignored without an underscore or the ending .sql, an error if what precedes the first underscore is no number, and otherwise with that version and the kind of its ending |
| MigrationFiles.TrimEndIs | sqlx-core/src/migrate/source.rs:113-116 | the description is what is left when the ending is taken off as often as it is there |
| MigrationFiles.KindReadBack | sqlx-core/src/migrate/migration_type.rs:19-27 | for which kind any created file is taken: its own, except that a simple description may end like a reversible one |
| MigrationFiles.ParseCreated | sqlx-core/src/migrate/source.rs:97-116 | what exactly is read from a created file name, for any description |
| MigrationFiles.VersionAndKindReadBack | sqlx-core/src/migrate/source.rs:97-116 | a created file is always recognised with its version, and for which kind it is taken |
| MigrationFiles.ReadAsDown | sqlx-core/src/migrate/migration_type.rs:19-27 | a simple file is taken for a down migration if and only if its description ends in .down |
| MigrationFiles.RoundTripIff | sqlx-cli/src/migrate.rs:14-38 | a created file name parses back to the same version, kind and description if and only if the description is recoverable |
| MigrateAdd.SortByVersion | sqlx-core/src/migrate/source.rs:141-142 | the same files, sorted by version |
| MigrateAdd.Resolve | sqlx-core/src/migrate/source.rs:57-145 | fails if and only if some migration's name has no valid version; otherwise one file for every migration's name, sorted, in any listing order |
| MigrateAdd.FlaggedOrdering | sqlx-cli/src/migrate.rs:61-70 | with the sequential flag the number is one more than the greatest version, or 1 in an empty directory; with the timestamp flag it is the time |
| MigrateAdd.InferredNumber | sqlx-cli/src/migrate.rs:71-98 | without a flag a number is one more than the greatest up version, and is given only if the version before that is there too or there is just one up migration, 0 or 1 |
| MigrateAdd.InferredTimestamp | sqlx-cli/src/migrate.rs:71-98 | in a directory without consecutive up versions, and not just 0 or 1, the time is taken |
| MigrateAdd.UpsAreOneToM | sqlx-cli/src/migrate.rs:71-98 | the files that are taken for up migrations, sorted, have the versions 1, 2, ..., m |
| MigrateAdd.InferNext | sqlx-cli/src/migrate.rs:61-100 | a flagless add is given the number after the files that are taken for up migrations, and a timestamp when there is none |
| MigrateAdd.AddIsNext | sqlx-cli/src/migrate.rs:103-140 | exactly which files a flagless add creates next to those of a run, for any descriptions |
| MigrateAdd.AddsCountUp | sqlx-cli/src/migrate.rs:61-140 | one sequential add to an empty directory and any number of flagless adds create exactly versions 1 to n, all pairs or all single files as the first one was, if the first file is taken for its kind and none before the last for a down migration |
| MigrateAdd.AddsCountUpIff | sqlx-cli/src/migrate.rs:61-140 | the directory ends up as versions 1 to n of the first one's kind if and only if that is reversible, or there was one add, or the first description does not end in .up or .down and none between the first and the last ends in .down |
| MigrateAdd.MisleadingFirst | sqlx-core/src/migrate/migration_type.rs:77-88 | a simple run whose first description ends like a reversible one never ends up as it should |
| MigrateAdd.MisleadingLater | sqlx-cli/src/migrate.rs:71-98 | neither does one with a description ending in .down between the first and the last: its number is given again |
| MigrateAdd.EveryFileReadsBack | sqlx-core/src/migrate/source.rs:97-116 | with recoverable descriptions every file of such a directory parses back to its version, kind and description |
| ForeignKeys.Search.Visit | sqlx-core/src/testing/fixtures.rs:157-196 | the memoised search terminates, records depths that are one more than the deepest reference, and fails only on a cycle or a dangling reference |
| ForeignKeys.DepthIsLongestChain | sqlx-core/src/testing/fixtures.rs:157-196 | a recorded depth is the length of the longest foreign-key chain from the table |
| ForeignKeys.AllComputedMeansNoFlaw | sqlx-core/src/testing/fixtures.rs:157-196 | when all depths are recorded there is neither a cycle nor a dangling reference |
| ForeignKeys.SortByDepth | sqlx-core/src/testing/fixtures.rs:104-106 | each table once, sorted by depth, from any initial order |
| ForeignKeys.VisitOrder | sqlx-core/src/testing/fixtures.rs:95-107 | fails if and only if there is a cycle or a dangling reference; otherwise lists each table once, by longest chain, after everything it references |
| Dependents.ReverseDeps | sqlx-cli/src/metadata.rs:153-165 | the exact transpose of the dependency graph |
| Dependents.Collector.Collect | sqlx-cli/src/metadata.rs:113-125 | terminates on cyclic graphs, adds only dependents, and closes what it adds under dependents |
| Dependents.AllDependentsOf | sqlx-cli/src/metadata.rs:107-111 | exactly the packages that reach the given one by one or more dependencies |
| Dependents.RecompileAction | sqlx-cli/src/prepare.rs:282-338 | a source path is touched if and only if its workspace package depends, through any chain, on a package named sqlx-macros; which outside packages are cleaned, likewise |
| PgArguments.Arguments.Encode | sqlx-postgres/src/arguments.rs:167-195 | succeeds if and only if the value and all its parts fit, and then appends exactly its length-prefixed frame |
| PgArguments.Arguments.EncodeOne | sqlx-postgres/src/arguments.rs:215-232 | a type hole reserves four bytes at the recorded offset |
| PgArguments.Arguments.Add | sqlx-postgres/src/arguments.rs:84-106 | a failed add leaves no trace, so the buffer is always the encoding of the successful ones alone |
| PgArguments.Arguments.ApplyPatches | sqlx-postgres/src/arguments.rs:110-138 | succeeds if and only if every type is found, and then the buffer is what encoding would have written with the OIDs known |
| PgArguments.BackPatch | sqlx-postgres/src/arguments.rs:174-192 | writing the length over the reserved bytes frames what was written after them and touches nothing else |
| PgArguments.HolesInBounds | sqlx-postgres/src/arguments.rs:215-232 | holes lie inside the buffer, in order, and do not overlap |
| PgArguments.EncodesIff | sqlx-postgres/src/arguments.rs:167-195 | a value can be encoded if and only if nothing in it fails and every element is at most i32::MAX bytes long, and how many bytes it takes |
| PgArguments.BigEndian | sqlx-postgres/src/arguments.rs:134-134 | the four bytes of an OID are its base-256 digits, most significant first |
| PgArguments.PatchAt | sqlx-postgres/src/arguments.rs:129-135 | after patching, each hole holds the bytes of the OID that was looked up for its own type, in order |
| PgArguments.PatchElsewhere | sqlx-postgres/src/arguments.rs:129-135 | every byte outside the holes is as it was |
| PgArguments.PatchFills | sqlx-postgres/src/arguments.rs:129-135 | patching yields the encoding of the same values with the OIDs in the holes: no frame and no other byte changes |
| PgArguments.LenRoundTrip | sqlx-postgres/src/arguments.rs:289-296 | lengths from -1 to i32::MAX survive the four big-endian bytes |
| PgArguments.GetIs | sqlx-postgres/src/value.rs:33-58 | for any bytes: -1 is NULL, other negative lengths are errors, and otherwise exactly that many bytes are the value, if they are there |
| PgArguments.GetFrame | sqlx-postgres/src/value.rs:33-58 | whatever follows, a frame decodes to exactly its value, NULL included, and leaves what follows |
| PgArguments.ReadWhatWasWritten | sqlx-postgres/src/value.rs:33-58 | decoding arbitrarily nested values returns them and consumes every byte |
| PgArguments.PatchedBufferDecodes | sqlx-postgres/src/arguments.rs:110-138 | the patched buffer decodes to the same values with the OIDs in place of the holes |
| MySqlArguments.GrownDescribes | sqlx-mysql/src/arguments.rs:67-77 | a byte is added exactly when the bitmap is full, and is zero |
| MySqlArguments.BitIsShifted | sqlx-mysql/src/arguments.rs:67-77 | bit k of a byte is counted from the least significant |
| MySqlArguments.WithBitDescribes | sqlx-mysql/src/arguments.rs:67-77 | setting the next bit records the next argument and disturbs no other bit |
| MySqlArguments.Arguments.Push | sqlx-mysql/src/arguments.rs:67-77 | the bitmap stays one bit per argument in ceil(n/8) bytes with zero padding |
| MySqlArguments.Arguments.Add | sqlx-mysql/src/arguments.rs:17-37 | a failed add leaves no trace; bitmap, types and count stay in step |
| StatementCache.LeastRecent | sqlx-core/src/common/statement_cache.rs:51-53 | what is evicted was used before everything that stays |
| StatementCache.InsertKeeps | sqlx-core/src/common/statement_cache.rs:27-39 | insert returns exactly the replaced or the least recently used statement, and keeps order, capacity and accounting |
| StatementCache.InsertAccountsIff | sqlx-core/src/common/statement_cache.rs:27-39 | no statement is lost if and only if the capacity is at least one |
| StatementCache.UseKeeps | sqlx-core/src/common/statement_cache.rs:20-22 | a lookup keeps order, capacity and accounting |
| StatementCache.RunKeeps | sqlx-core/src/common/statement_cache.rs:20-58 | after any run the entries are ordered by last use, within capacity, and every inserted statement is cached, was returned once, or was cleared |
| StatementCache.UseFinds | sqlx-core/src/common/statement_cache.rs:20-22 | a lookup returns the statement cached under that key and no other, makes it the latest used, and changes nothing else |
| StatementCache.InsertFinds | sqlx-core/src/common/statement_cache.rs:27-39 | with room for a statement, insert adds exactly this key; it returns the statement replaced under it, or of a full cache the one of the key whose last use is oldest |
| StatementCache.RemoveFinds | sqlx-core/src/common/statement_cache.rs:51-58 | eviction takes exactly the key whose last use is oldest and returns its statement; clearing takes everything |
| StatementCache.RunFinds | sqlx-core/src/common/statement_cache.rs:20-58 | at every operation of every run a cache with room for a statement answers as a map from keys to statements with such evictions would |
| StatementCache.NoRoom | sqlx-core/src/common/statement_cache.rs:20-58 | a cache without room stays empty through every run, and no operation returns a statement |
| StatementCache.Cache.InsertStatement | sqlx-core/src/common/statement_cache.rs:27-39 | the in-place insert is the specified one |
| StatementCache.Cache.GetMut | sqlx-core/src/common/statement_cache.rs:20-22 | the in-place lookup is the specified one |
| StatementCache.Cache.EvictLru | sqlx-core/src/common/statement_cache.rs:51-53 | the in-place eviction is the specified one |
| StatementCache.Cache.ClearAll | sqlx-core/src/common/statement_cache.rs:56-58 | the in-place clear is the specified one |
| AsyncStream.TryAsyncStream.Resume | sqlx-core/src/ext/async_stream.rs:60-88 | the generator always finds the slot empty when it yields, so its assertion never fires |
| AsyncStream.TryAsyncStream.PollStream | sqlx-core/src/ext/async_stream.rs:101-118 | each poll leaves the slot empty and does what the specification does |
| AsyncStream.PollStep | sqlx-core/src/ext/async_stream.rs:101-118 | each poll hands out at most the next value, loses none, makes progress, and nothing follows an error or the end; while it is pending the stream has not ended |
| AsyncStream.NothingLostOrRepeated | sqlx-core/src/ext/async_stream.rs:60-118 | under any schedule, what came out and what is to come are the yielded values in order and then the error; after enough polls all came out and the stream ends for good |
| QueryBuilder.Append | sqlx-core/src/query_builder.rs:116-165 | pushing more only appends to the text and to the arguments |
| QueryBuilder.PlaceholderNamesValue | sqlx-postgres/src/arguments.rs:156-158 | the placeholder pushed k-th is a dollar sign and digits of value k, right after what was pushed before it, and the k-th argument is its value, whatever else is pushed |
| QueryBuilder.SqlIsThere | sqlx-core/src/query_builder.rs:116-122 | SQL text is in the query as it was pushed, right after what was pushed before it |
| QueryBuilder.TupleIs | sqlx-core/src/query_builder.rs:306-332 | a row is an opening parenthesis, the cells in order with a comma between one and the next, and a closing parenthesis, and nothing else |
| QueryBuilder.JoinAt | sqlx-core/src/query_builder.rs:306-332 | each row stands at its place with a comma right before every row but the first |
| QueryBuilder.JoinLength | sqlx-core/src/query_builder.rs:306-332 | and nothing else is in between |
| QueryBuilder.RowByRow | sqlx-core/src/query_builder.rs:306-332 | the arguments of push_values are the bound cells row by row; separators and parentheses add none |
| QueryBuilder.Builder.constructor | sqlx-core/src/query_builder.rs:50-61 | the initial text and no arguments |
| QueryBuilder.Builder.Push | sqlx-core/src/query_builder.rs:116-122 | text and arguments still follow from what was pushed |
| QueryBuilder.Builder.PushBind | sqlx-core/src/query_builder.rs:148-165 | the placeholder number is the number of arguments including this one |
| QueryBuilder.Builder.PushValues | sqlx-core/src/query_builder.rs:306-332 | appends VALUES and exactly the nested comma-join of the rows |
| QueryBuilder.Builder.PushTuples | sqlx-core/src/query_builder.rs:418-439 | appends exactly the nested comma-join of the rows in parentheses |
| QueryBuilder.Builder.Build | sqlx-core/src/query_builder.rs:453-462 | hands over the text and the arguments of everything pushed |
| QueryBuilder.Builder.Reset | sqlx-core/src/query_builder.rs:513-518 | after any run, built or not, the state of a new builder |
| QueryBuilder.Separated.PushSql | sqlx-core/src/query_builder.rs:552-563 | the separator precedes every push but the first |
| QueryBuilder.Separated.PushValue | sqlx-core/src/query_builder.rs:575-587 | the separator precedes every bind but the first |

## Left out

- The connection pool, SQLite, the `Any` driver, sockets, TLS, runtimes, timeouts, logging and terminal output.
- Type tables, macros, derives and `name_eq` of PostgreSQL type names: settled branch by branch.
- Server-side rollbacks that the client did not ask for (deadlocks), and user transactions on MySQL that contain data definition, whose implicit commit removes savepoints.
- Savepoints.RunRefines: a transaction nested into an aborted PostgreSQL block is excluded by `Allowed`, because the code does not keep the depth there; `NestedBeginKeepsDepthIff` shows that this is exact.
- Transactions.Connection.WaitUntilReady: models the PostgreSQL driver; the MySQL driver keeps waiting for the reply that was an error, which is not modelled. Under the invariant no queued statement is refused.
- Cancelled futures: a `begin` that is dropped while it awaits the server.
- Migration scripts with their own transaction control, and PostgreSQL `no_tx` migrations: at-most-once is not claimed for them.
- The execution time column, timestamps and the text of descriptions in the migrations table.
- SHA-384 checksums and CRC lock ids are opaque values; the clock is a parameter of `Added`.
- MySqlHistory.Sessions: sessions run one after the other, as the lock of the driver arranges; `ConcurrentMigrators` models the lock itself for PostgreSQL.
- MigrateAdd.AddsCountUpIff: versions stay below `i64::MAX`, where the increment of the source would overflow.
- Text of generated fixtures (`additive_fixture`): only the order of the tables is modelled.
- Arbitrary `patch` callbacks of `PgArgumentBuffer`: only type holes are modelled. Reads past the end of a buffer, which panic in `PgValueRef::get`, are the outcome `PastEnd`.
- `QueryBuilder::with_arguments`, the unseparated pushes, and closures of `push_values` that do anything but push cells; using a builder after `build` without `reset`, which panics, is a precondition.
- The LRU map inside the statement cache is a list in order of use that drops its oldest entry when it grows past its capacity.
- `sqlx migrate info`, `build-script`, and creating or dropping databases.
