/** The TCP key-value server as a replicated state machine over the decided log. */
module Server {
  import opened Values
  import opened KVSnapshot

  datatype ServerMessage = Write(id: nat) | Read(id: nat, value: Option<string>)

  datatype Sent = Sent(client: nat, message: ServerMessage)

  datatype LogEntry = Decided(command: Command) | OtherEntry

  /** What the coordinator of `c` tells its client when the database is `db`. */
  function Response(db: Db, c: Command): Sent {
    match DbAnswer(db, c.kvCmd)
    case Some(value) => Sent(c.clientId, Read(c.id, value))
    case None => Sent(c.clientId, Write(c.id))
  }

  function RunDb(db: Db, commands: seq<Command>): Db {
    if commands == [] then db else DbStep(RunDb(db, commands[..|commands| - 1]), commands[|commands| - 1].kvCmd)
  }

  function RunResponses(id: nat, db: Db, commands: seq<Command>): seq<Sent> {
    if commands == [] then []
    else
      var front, c := commands[..|commands| - 1], commands[|commands| - 1];
      RunResponses(id, db, front) + if c.coordinatorId == id then [Response(RunDb(db, front), c)] else []
  }

  function CommandsOf(entries: seq<LogEntry>): (r: seq<Command>)
    requires forall e :: e in entries ==> e.Decided?
    ensures |r| == |entries|
  {
    seq(|entries|, i requires 0 <= i < |entries| => assert entries[i] in entries; entries[i].command)
  }

  class OmniPaxosServer {
    const id: nat
    const database: Database
    var currentDecidedIdx: nat
    /** Messages handed to the network for clients so far. */
    var sent: seq<Sent>

    constructor (id: nat)
      ensures this.id == id && fresh(database) && database.db == map[] && currentDecidedIdx == 0 && sent == []
    {
      this.id := id;
      database := new Database();
      currentDecidedIdx, sent := 0, [];
    }

    method UpdateDatabaseAndRespond(commands: seq<Command>)
      modifies this`sent, database
      ensures database.db == RunDb(old(database.db), commands)
      ensures sent == old(sent) + RunResponses(id, old(database.db), commands)
    {
      for n := 0 to |commands|
        invariant database.db == RunDb(old(database.db), commands[..n])
        invariant sent == old(sent) + RunResponses(id, old(database.db), commands[..n])
      {
        var command := commands[n];
        assert commands[..n + 1][..n] == commands[..n];
        var read := database.HandleCommand(command.kvCmd);
        if command.coordinatorId == id {
          var response := match read {
            case Some(value) => Read(command.id, value)
            case None => Write(command.id)
          };
          sent := sent + [Sent(command.clientId, response)];
        }
      }
      assert commands[..|commands|] == commands;
    }

    /** The server stops on anything but a decided command, so its caller must not hand it a snapshot. */
    method HandleDecidedEntries(newDecidedIdx: nat, entries: seq<LogEntry>)
      requires forall e :: e in entries ==> e.Decided?
      modifies this, database
      ensures currentDecidedIdx ==
              if old(currentDecidedIdx) < newDecidedIdx then newDecidedIdx else old(currentDecidedIdx)
      ensures old(currentDecidedIdx) < newDecidedIdx ==>
        && database.db == RunDb(old(database.db), CommandsOf(entries))
        && sent == old(sent) + RunResponses(id, old(database.db), CommandsOf(entries))
      ensures old(currentDecidedIdx) >= newDecidedIdx ==> database.db == old(database.db) && sent == old(sent)
    {
      if currentDecidedIdx < newDecidedIdx {
        currentDecidedIdx := newDecidedIdx;
        UpdateDatabaseAndRespond(CommandsOf(entries));
      }
    }
  }

  // ---- The log as the reference ----

  /** The answer the log gives to the command at position `j`: a read carries the value at that position. */
  function ResponseAt(log: seq<Command>, j: nat): Sent
    requires j < |log|
  {
    Response(DbReplay(log[..j]), log[j])
  }

  /** Position `i` is the last thing before `j` that changes `key`, and it is a put. */
  predicate LastPut(log: seq<Command>, key: string, j: nat, i: int) {
    && 0 <= i < j <= |log| && Mutates(log[i], key) && log[i].kvCmd.Put?
    && forall m :: i < m < j ==> !Mutates(log[m], key)
  }

  lemma {:induction false} ValueOnLog(log: seq<Command>, key: string, j: nat)
    requires j <= |log|
    ensures forall i :: LastPut(log, key, j, i) ==> KeyAfter(None, log[..j], key) == Some(log[i].kvCmd.value)
    ensures (forall i :: !LastPut(log, key, j, i)) ==> KeyAfter(None, log[..j], key) == None
  {
    if j > 0 {
      ValueOnLog(log, key, j - 1);
      assert log[..j][..j - 1] == log[..j - 1];
      forall i ensures LastPut(log, key, j, i) <==>
        if Mutates(log[j - 1], key) then i == j - 1 && log[i].kvCmd.Put? else LastPut(log, key, j - 1, i)
      {
      }
    }
  }

  /**
   What the log answers, read off its commands: a mutation is acknowledged; a read carries the value of the put that
   last changed its key, and nothing when the key was never changed or a delete changed it last. Client and command
   id are those of the command.
   */
  lemma AnswerOnLog(log: seq<Command>, j: nat)
    requires j < |log|
    ensures var c := log[j];
      && (!c.kvCmd.Get? ==> ResponseAt(log, j) == Sent(c.clientId, Write(c.id)))
      && (c.kvCmd.Get? ==> forall i :: LastPut(log, c.kvCmd.key, j, i) ==>
            ResponseAt(log, j) == Sent(c.clientId, Read(c.id, Some(log[i].kvCmd.value))))
      && (c.kvCmd.Get? && (forall i :: !LastPut(log, c.kvCmd.key, j, i)) ==>
            ResponseAt(log, j) == Sent(c.clientId, Read(c.id, None)))
  {
    ValueOnLog(log, log[j].kvCmd.key, j);
    KeyReplayAlone(log[..j], log[j].kvCmd.key);
  }

  /** What server `id` owes its clients for positions `lo` to `hi`. */
  function Owed(id: nat, log: seq<Command>, lo: nat, hi: nat): seq<Sent>
    requires lo <= hi <= |log|
  {
    if lo == hi then []
    else Owed(id, log, lo, hi - 1) + if log[hi - 1].coordinatorId == id then [ResponseAt(log, hi - 1)] else []
  }

  lemma DbReplayNext(log: seq<Command>, k: nat)
    requires k < |log|
    ensures DbReplay(log[..k + 1]) == DbStep(DbReplay(log[..k]), log[k].kvCmd)
  {
    assert log[..k + 1][..k] == log[..k];
  }

  /** One batch brings the database to the new prefix and sends exactly what is owed for it. */
  lemma {:induction false} BatchIsReplay(id: nat, log: seq<Command>, lo: nat, hi: nat)
    requires lo <= hi <= |log|
    ensures RunDb(DbReplay(log[..lo]), log[lo..hi]) == DbReplay(log[..hi])
    ensures RunResponses(id, DbReplay(log[..lo]), log[lo..hi]) == Owed(id, log, lo, hi)
  {
    if lo < hi {
      BatchIsReplay(id, log, lo, hi - 1);
      DbReplayNext(log, hi - 1);
      assert log[lo..hi][..hi - 1 - lo] == log[lo..hi - 1];
      assert log[lo..hi][hi - 1 - lo] == log[hi - 1];
    }
  }

  /** How many of the positions `lo` to `j` server `id` coordinates. */
  function Rank(id: nat, log: seq<Command>, lo: nat, j: nat): nat
    requires lo <= j <= |log|
  {
    if lo == j then 0 else Rank(id, log, lo, j - 1) + if log[j - 1].coordinatorId == id then 1 else 0
  }

  lemma {:induction false} OwedLength(id: nat, log: seq<Command>, lo: nat, hi: nat)
    requires lo <= hi <= |log|
    ensures |Owed(id, log, lo, hi)| == Rank(id, log, lo, hi)
  {
    if lo < hi {
      OwedLength(id, log, lo, hi - 1);
    }
  }

  /**
   Every command coordinated here is answered exactly once, in log order: the answers are as many as
   those commands, and the one with rank r is the r-th answer.
   */
  lemma {:induction false} AnsweredOnce(id: nat, log: seq<Command>, lo: nat, j: nat, hi: nat)
    requires lo <= j < hi <= |log| && log[j].coordinatorId == id
    ensures |Owed(id, log, lo, hi)| == Rank(id, log, lo, hi) > Rank(id, log, lo, j)
    ensures Owed(id, log, lo, hi)[Rank(id, log, lo, j)] == ResponseAt(log, j)
  {
    OwedLength(id, log, lo, hi);
    OwedLength(id, log, lo, hi - 1);
    if j < hi - 1 {
      AnsweredOnce(id, log, lo, j, hi - 1);
    }
  }

  lemma {:induction false} OwedSplits(id: nat, log: seq<Command>, lo: nat, mid: nat, hi: nat)
    requires lo <= mid <= hi <= |log|
    ensures Owed(id, log, lo, hi) == Owed(id, log, lo, mid) + Owed(id, log, mid, hi)
  {
    if mid < hi {
      OwedSplits(id, log, lo, mid, hi - 1);
    }
  }

  function AllDecided(commands: seq<Command>): (r: seq<LogEntry>)
    ensures |r| == |commands| && forall e :: e in r ==> e.Decided?
  {
    seq(|commands|, i requires 0 <= i < |commands| => Decided(commands[i]))
  }

  lemma CommandsRoundTrip(commands: seq<Command>)
    ensures CommandsOf(AllDecided(commands)) == commands
  {
  }

  /** The server driven through a whole sequence of decided indices, each with the suffix the log gives it. */
  method Serve(id: nat, log: seq<Command>, marks: seq<nat>) returns (db: Db, sent: seq<Sent>, upTo: nat)
    requires forall n :: 0 <= n < |marks| ==> marks[n] <= |log|
    ensures upTo <= |log| && (forall n :: 0 <= n < |marks| ==> marks[n] <= upTo) && (upTo == 0 || upTo in marks)
    ensures db == DbReplay(log[..upTo])
    ensures sent == Owed(id, log, 0, upTo)
  {
    var server := new OmniPaxosServer(id);
    assert log[..0] == [];
    for n := 0 to |marks|
      invariant server.id == id && fresh(server) && fresh(server.database)
      invariant server.currentDecidedIdx <= |log|
      invariant forall m :: 0 <= m < n ==> marks[m] <= server.currentDecidedIdx
      invariant server.currentDecidedIdx == 0 || server.currentDecidedIdx in marks
      invariant server.database.db == DbReplay(log[..server.currentDecidedIdx])
      invariant server.sent == Owed(id, log, 0, server.currentDecidedIdx)
    {
      var lo := server.currentDecidedIdx;
      var suffix := if lo <= marks[n] then log[lo..marks[n]] else [];
      CommandsRoundTrip(suffix);
      if lo < marks[n] {
        BatchIsReplay(id, log, lo, marks[n]);
        OwedSplits(id, log, 0, lo, marks[n]);
      }
      server.HandleDecidedEntries(marks[n], AllDecided(suffix));
    }
    db, sent, upTo := server.database.db, server.sent, server.currentDecidedIdx;
  }
}
