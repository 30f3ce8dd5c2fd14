/** The history_poll_state table: the last stored poll time of each instance. */
module PollState {
  import opened Core

  class PollTable {
    var rows: map<UUID, int>

    constructor (rows: map<UUID, int>)
      ensures this.rows == rows
    {
      this.rows := rows;
    }

    /** The stored time, or the zero time when the instance was never polled; the query may fail. */
    method LastPolled(id: UUID, queryOk: bool) returns (t: Option<int>)
      ensures t == if !queryOk then None else if id in rows then Some(rows[id]) else Some(ZERO_TIME)
    {
      if !queryOk {
        return None;
      }
      t := Some(if id in rows then rows[id] else ZERO_TIME);
    }

    method RecordPoll(id: UUID, polledAt: int, execOk: bool) returns (ok: bool)
      modifies this
      ensures ok == execOk && rows == if ok then old(rows)[id := polledAt] else old(rows)
    {
      ok := execOk;
      if ok {
        rows := rows[id := polledAt];
      }
    }
  }
}
