/** The protocol library between the network and a session: it keeps its own table of the prepared statements, answers
    some commands without asking the session, and ends the connection when it is asked for a statement it does not
    know. */
module Wire {
  import opened Session

  /** For each statement, how many parameters it hands over: their number is kept in 16 bits. */
  type Table = map<nat, nat>

  /** The one query that the library answers; it knows it in two spellings. */
  predicate AnswersItself(c: Command) {
    c == Query("SELECT @@max_allowed_packet") || c == Query("select @@max_allowed_packet")
  }

  predicate IsUnknown(t: Table, c: Command) {
    (c.Execute? && c.statement !in t) || (c.Reset? && c.reset !in t)
  }

  /** Whether the session gets to see a command. */
  predicate Reaches(t: Table, c: Command) {
    !AnswersItself(c) && !IsUnknown(t, c)
  }

  /** The command as the session sees it: parameters that can be decoded are as many as the table says. */
  function Handed(t: Table, c: Command): Command {
    if c.Execute? && c.bound.Some? && c.statement in t then c.(bound := Text.Some(t[c.statement])) else c
  }

  function Serve(s: State, t: Table, g: Globals, c: Command, a: Answers): (State, Globals, Reply) {
    if AnswersItself(c) then (s, g, Rows)
    else if IsUnknown(t, c) then (s, g, Broken)
    else Step(s, g, Handed(t, c), a)
  }

  /** The table after a command: a prepare enters its statement, a close removes it. */
  function Tabled(t: Table, c: Command, reply: Reply): Table {
    if c.Prepare? && reply.Prepared? then t[reply.id := |reply.params| % 0x1_0000]
    else if c.Close? then t - {c.closed}
    else t
  }

  class Connection {
    const backend: Backend
    var table: Table

    constructor (backend: Backend)
      ensures this.backend == backend && table == map[]
    {
      this.backend, table := backend, map[];
    }

    /** One round of `run`. */
    method Dispatch(c: Command, a: Answers) returns (reply: Reply)
      modifies this, backend, backend.shared
      ensures (backend.View(), backend.shared.View(), reply) ==
              Serve(old(backend.View()), old(table), old(backend.shared.View()), c, a)
      ensures table == Tabled(old(table), c, reply)
    {
      hide Step;
      reply := Done;
      match c {
        case Query(text) =>
          if text == "SELECT @@max_allowed_packet" || text == "select @@max_allowed_packet" {
            return Rows;
          }
          reply := backend.OnQuery(text, a);
        case Prepare(query) =>
          reply := backend.OnPrepare(query, a);
          if reply.Prepared? {
            table := table[reply.id := |reply.params| % 0x1_0000];
          }
        case Execute(id, bound) =>
          if id !in table {
            return Broken;
          }
          reply := backend.OnExecute(id, if bound.None? then bound else Text.Some(table[id]), a);
        case Close(id) =>
          backend.OnClose(id, a);
          table := table - {id};
        case Reset(id) =>
          if id !in table {
            return Broken;
          }
          backend.OnReset(id, a);
        case Init(schema) =>
          backend.OnInit(schema, a);
      }
    }
  }
}
