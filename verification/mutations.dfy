/** `delete`, `update` and `insert` (packages/database-sqlite/src/index.ts,
    lines 57-127): each builds its statement, hands it to SQLite once, and
    turns what SQLite answers into the Open SQL status pair
    (`sy-subrc`, `sy-dbcnt`). No SQLite error ever escapes these calls. */
module Mutations {
  import opened Templates

  /** What SQLite answers to one statement in its current state: the number
      of rows it changed, or an error (a constraint violation, a syntax
      error, no open connection, ...). */
  datatype Reply = Changed(changes: nat) | Failed(message: string)

  /** The outcome the Open SQL caller sees. */
  datatype Status = Status(subrc: nat, dbcnt: nat)

  /** `sy-subrc` for "no row affected" and for any failure. */
  const NotFound: nat := 4

  /** The status of a DELETE or UPDATE: the change count SQLite reports,
      flagged 4 when it is zero; a failure reads as 4 with no rows. */
  function ChangeStatus(reply: Reply): (st: Status)
    ensures st.subrc == 0 || st.subrc == NotFound
    ensures st.subrc == NotFound <==> st.dbcnt == 0
    ensures reply.Changed? ==> st.dbcnt == reply.changes
    ensures reply.Failed? ==> st == Status(NotFound, 0)
  {
    match reply
    case Changed(n) => Status(if n == 0 then NotFound else 0, n)
    case Failed(_) => Status(NotFound, 0)
  }

  /** `delete`: runs `DELETE FROM <table> WHERE <where>` through `engine`. */
  function Delete(req: DeleteRequest, engine: string -> Reply): (st: Status)
    ensures st.subrc == 0 || st.subrc == NotFound
    ensures st.subrc == NotFound <==> st.dbcnt == 0
    ensures engine(DeleteSql(req)).Changed? ==> st.dbcnt == engine(DeleteSql(req)).changes
    ensures engine(DeleteSql(req)).Failed? ==> st == Status(NotFound, 0)
  {
    ChangeStatus(engine(DeleteSql(req)))
  }

  /** `update`: runs `UPDATE <table> SET ... WHERE <where>` through `engine`. */
  function Update(req: UpdateRequest, engine: string -> Reply): (st: Status)
    ensures st.subrc == 0 || st.subrc == NotFound
    ensures st.subrc == NotFound <==> st.dbcnt == 0
    ensures engine(UpdateSql(req)).Changed? ==> st.dbcnt == engine(UpdateSql(req)).changes
    ensures engine(UpdateSql(req)).Failed? ==> st == Status(NotFound, 0)
  {
    ChangeStatus(engine(UpdateSql(req)))
  }

  /** `insert`: runs the INSERT statement through `engine`. Success counts
      as exactly one row whatever SQLite reports; any failure (a duplicate
      key, say) reads as 4 with no rows. */
  function Insert(req: InsertRequest, engine: string -> Reply): (st: Status)
    ensures st.subrc == 0 || st.subrc == NotFound
    ensures st.subrc == 0 <==> st.dbcnt == 1
    ensures st.subrc == NotFound <==> engine(InsertSql(req)).Failed?
    ensures engine(InsertSql(req)).Changed? ==> st == Status(0, 1)
    ensures engine(InsertSql(req)).Failed? ==> st == Status(NotFound, 0)
  {
    match engine(InsertSql(req))
    case Changed(_) => Status(0, 1)
    case Failed(_) => Status(NotFound, 0)
  }
}
