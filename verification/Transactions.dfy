/** The drivers' transaction managers and the `Transaction` guard, as the source updates them in place. */
module Transactions {
  import opened Basics
  import opened Savepoints

  /** `conn.inner`: the depth, the write buffer, and the server at the other end. */
  class Connection {
    const dialect: Dialect
    var depth: nat
    var queue: seq<Sql>
    var unread: seq<bool>
    var server: Server

    constructor (dialect: Dialect, data: Data)
      ensures this.dialect == dialect
      ensures Simulates(dialect, State(), Stack([], data, false))
    {
      this.dialect := dialect;
      depth, queue, unread, server := 0, [], [], Outside(data);
    }

    ghost function State(): Client
      reads this
    {
      Client(depth, queue, unread, server)
    }

    /** Sends the queue, first in first out. */
    method SendQueue()
      modifies this`queue, this`unread, this`server
      ensures queue == [] && server == ExecAll(dialect, old(server), old(queue)).0
      ensures unread == old(unread) + Replies(dialect, old(server), old(queue))
    {
      ghost var sent := 0;
      while queue != []
        invariant sent + |queue| == |old(queue)| && queue == old(queue)[sent..]
        invariant server == ExecAll(dialect, old(server), old(queue)[..sent]).0
        invariant unread == old(unread) + Replies(dialect, old(server), old(queue)[..sent])
        decreases |queue|
      {
        var (s, replied) := Exec(dialect, server, queue[0]);
        TakeNext(old(queue), sent);
        ExecAllAppend(dialect, old(server), old(queue)[..sent], queue[0]);
        server, unread, queue := s, unread + [replied], queue[1..];
        sent := sent + 1;
      }
      assert old(queue)[..sent] == old(queue);
    }

    /** Sends what is queued and reads replies up to the first error. */
    method WaitUntilReady() returns (ok: bool)
      modifies this`queue, this`unread, this`server
      ensures (State(), ok) == Flush(dialect, old(State()))
    {
      SendQueue();
      ok := true;
      ghost var replies := unread;
      while ok && unread != []
        invariant queue == [] && server == ExecAll(dialect, old(server), old(queue)).0
        invariant ok ==> ReadReplies(unread) == ReadReplies(replies)
        invariant !ok ==> (unread, false) == ReadReplies(replies)
        decreases |unread|
      {
        ok, unread := unread[0], unread[1..];
      }
    }

    method Execute(q: Sql) returns (ok: bool)
      modifies this`queue, this`unread, this`server
      ensures (State(), ok) == Send(dialect, old(State()), q)
    {
      ok := WaitUntilReady();
      if ok {
        var (s, replied) := Exec(dialect, server, q);
        server, ok := s, replied;
      }
    }

    method Write(w: int, works: bool) returns (ok: bool)
      modifies this`queue, this`unread, this`server
      ensures (State(), ok) == WriteStep(dialect, old(State()), w, works)
    {
      ok := WaitUntilReady();
      if ok {
        var (s, replied) := ExecWrite(dialect, server, w, works);
        server, ok := s, replied;
      }
    }

    /** `TransactionManager::begin`, with the PostgreSQL guard that is defused only on success. */
    method Begin(custom: Option<bool>) returns (ok: bool)
      modifies this
      ensures (State(), ok) == BeginStep(dialect, old(State()), custom)
    {
      if custom.Some? && depth > 0 {
        return false;
      }
      ok := Execute(if custom.Some? then CustomBegin(custom.value) else BeginSql(depth));
      if ok && server.inTx && !server.aborted {
        depth := depth + 1;
      } else {
        ok := false;
        if dialect.Postgres? {
          StartRollback();
        }
      }
    }

    /** `TransactionManager::commit` */
    method Commit() returns (ok: bool)
      modifies this
      ensures (State(), ok) == CommitStep(dialect, old(State()))
    {
      ok := true;
      if depth > 0 {
        ok := Execute(CommitSql(depth));
        if ok {
          depth := depth - 1;
        }
      }
    }

    /** `TransactionManager::rollback` */
    method Rollback() returns (ok: bool)
      modifies this
      ensures (State(), ok) == RollbackStep(dialect, old(State()))
    {
      ok := true;
      if depth > 0 {
        ok := Execute(RollbackSql(depth));
        if ok {
          depth := depth - 1;
        }
      }
    }

    /** `TransactionManager::start_rollback` */
    method StartRollback()
      modifies this`depth, this`queue
      ensures State() == Savepoints.StartRollback(old(State()))
    {
      if depth > 0 {
        queue := queue + [RollbackSql(depth)];
        depth := depth - 1;
      }
    }
  }

  /** A begun transaction. Each way of ending it is one of the operations of `Savepoints.Step`. */
  class Transaction {
    const conn: Connection
    var open: bool

    constructor (conn: Connection)
      ensures this.conn == conn && open
    {
      this.conn := conn;
      open := true;
    }

    /** `commit(mut self)`: the value is dropped on the way out, still open if the commit failed. */
    method Commit() returns (ok: bool)
      requires open
      modifies this, conn
      ensures conn.State() == Step(conn.dialect, old(conn.State()), OpCommit).0
      ensures ok == Step(conn.dialect, old(conn.State()), OpCommit).1.ok
    {
      ok := conn.Commit();
      if ok {
        open := false;
      }
      Drop();
    }

    method Rollback() returns (ok: bool)
      requires open
      modifies this, conn
      ensures conn.State() == Step(conn.dialect, old(conn.State()), OpRollback).0
      ensures ok == Step(conn.dialect, old(conn.State()), OpRollback).1.ok
    {
      ok := conn.Rollback();
      if ok {
        open := false;
      }
      Drop();
    }

    /** `Drop::drop` */
    method Drop()
      modifies conn
      ensures conn.State() == if open then Step(conn.dialect, old(conn.State()), OpDrop).0 else old(conn.State())
    {
      if open {
        conn.StartRollback();
      }
    }
  }
}
