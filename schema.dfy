/** The four tables created by `setup_database` (app.py lines 10-28), their
    rows, the per-lottery queries the ledger issues against them, and the
    constraints SQLite enforces on them once `PRAGMA foreign_keys = ON` is set.
    A table is the sequence of its rows in rowid order. */
module Schema {
  import opened Seqs

  /** The `status` column. The ledger itself only ever writes `'scheduled'`. */
  datatype Status = Scheduled | Completed

  /** A row of `lotteries`; times are instants on one integer clock. */
  datatype Lottery = Lottery(id: int, title: string, drawTime: int, numWinners: int, status: Status, createdAt: int)

  /** A row of `participants`. A name may occur many times in one roster. */
  datatype Participant = Participant(lotteryId: int, name: string)

  /** A row of `winners`: a copied name, not a reference to a participant. */
  datatype Winner = Winner(lotteryId: int, name: string, round: int)

  /** A row of `lottery_logs`. */
  datatype LogEntry = LogEntry(lotteryId: int, timestamp: int, message: string)

  datatype Tables = Tables(lotteries: seq<Lottery>, participants: seq<Participant>, winners: seq<Winner>, logs: seq<LogEntry>)

  /** The primary key of `lotteries` and the foreign key of each child table. */
  function LotteryKey(l: Lottery): int { l.id }
  function ParticipantOwner(p: Participant): int { p.lotteryId }
  function WinnerOwner(w: Winner): int { w.lotteryId }
  function LogOwner(e: LogEntry): int { e.lotteryId }

  function Ids(lotteries: seq<Lottery>): set<int> {
    set l | l in lotteries :: l.id
  }

  /** What the database guarantees: `id` is the primary key of `lotteries`,
      and every participant, winner and log row references an existing
      lottery (the `FOREIGN KEY ... REFERENCES lotteries (id)` clauses). */
  ghost predicate Valid(t: Tables) {
    && KeysDistinct(t.lotteries, LotteryKey)
    && (forall p :: p in t.participants ==> p.lotteryId in Ids(t.lotteries))
    && (forall w :: w in t.winners ==> w.lotteryId in Ids(t.lotteries))
    && (forall e :: e in t.logs ==> e.lotteryId in Ids(t.lotteries))
  }

  function MaxId(lotteries: seq<Lottery>): (m: int)
    requires lotteries != []
    ensures m in Ids(lotteries)
    ensures forall l :: l in lotteries ==> l.id <= m
  {
    var last := lotteries[|lotteries| - 1];
    if |lotteries| == 1 then last.id
    else
      var init := lotteries[..|lotteries| - 1];
      assert lotteries == init + [last];
      var m := MaxId(init);
      if m < last.id then last.id else m
  }

  /** The rowid SQLite gives an inserted lottery (`c.lastrowid`): one more
      than the largest id in the table, or 1 when the table is empty. */
  function NewLotteryId(lotteries: seq<Lottery>): (id: int)
    ensures forall l :: l in lotteries ==> l.id < id
    ensures lotteries == [] ==> id == 1
    ensures lotteries != [] ==> id - 1 in Ids(lotteries)
  {
    if lotteries == [] then 1 else MaxId(lotteries) + 1
  }

  /** `SELECT name FROM participants WHERE lottery_id = ?`, in rowid order. */
  function RosterOf(participants: seq<Participant>, id: int): (names: seq<string>)
    ensures |names| <= |participants|
  {
    if participants == [] then []
    else
      var last := participants[|participants| - 1];
      RosterOf(participants[..|participants| - 1], id) + (if last.lotteryId == id then [last.name] else [])
  }

  /** `{row[0] for row in SELECT winner_name FROM winners WHERE lottery_id = ?}`. */
  function WinnerNamesOf(winners: seq<Winner>, id: int): set<string> {
    set w | w in winners && w.lotteryId == id :: w.name
  }

  /** The log of one lottery in insertion order (`... WHERE lottery_id = ? ORDER BY id`). */
  function LogsOf(logs: seq<LogEntry>, id: int): (entries: seq<LogEntry>)
    ensures |entries| <= |logs|
  {
    if logs == [] then []
    else
      var last := logs[|logs| - 1];
      LogsOf(logs[..|logs| - 1], id) + (if last.lotteryId == id then [last] else [])
  }

  /** The roster of a concatenation of participant rows. */
  lemma {:induction false} RosterOfAppend(a: seq<Participant>, b: seq<Participant>, id: int)
    ensures RosterOf(a + b, id) == RosterOf(a, id) + RosterOf(b, id)
  {
    if b == [] {
      assert a + b == a;
    } else {
      var init := b[..|b| - 1];
      RosterOfAppend(a, init, id);
      assert (a + b)[..|a + b| - 1] == a + init;
    }
  }

  /** A lottery that owns no participant row has an empty roster. */
  lemma {:induction false} RosterOfUnowned(participants: seq<Participant>, id: int)
    requires forall p :: p in participants ==> p.lotteryId != id
    ensures RosterOf(participants, id) == []
  {
    if participants != [] {
      var init := participants[..|participants| - 1];
      assert forall p :: p in init ==> p in participants;
      RosterOfUnowned(init, id);
    }
  }

  /** Removing the participant rows of one lottery leaves every other roster as it was. */
  lemma {:induction false} RosterOfWithout(participants: seq<Participant>, id: int, other: int)
    requires other != id
    ensures RosterOf(Without(participants, ParticipantOwner, id), other) == RosterOf(participants, other)
  {
    if participants != [] {
      var init, last := participants[..|participants| - 1], participants[|participants| - 1];
      RosterOfWithout(init, id, other);
      var rest := Without(init, ParticipantOwner, id);
      if last.lotteryId != id {
        assert (rest + [last])[..|rest|] == rest;
      }
    }
  }

  lemma {:induction false} LogsOfAppend(a: seq<LogEntry>, b: seq<LogEntry>, id: int)
    ensures LogsOf(a + b, id) == LogsOf(a, id) + LogsOf(b, id)
  {
    if b == [] {
      assert a + b == a;
    } else {
      var init := b[..|b| - 1];
      LogsOfAppend(a, init, id);
      assert (a + b)[..|a + b| - 1] == a + init;
    }
  }

  lemma {:induction false} LogsOfUnowned(logs: seq<LogEntry>, id: int)
    requires forall e :: e in logs ==> e.lotteryId != id
    ensures LogsOf(logs, id) == []
  {
    if logs != [] {
      var init := logs[..|logs| - 1];
      assert forall e :: e in init ==> e in logs;
      LogsOfUnowned(init, id);
    }
  }

  /** Removing the log rows of one lottery leaves every other log as it was. */
  lemma {:induction false} LogsOfWithout(logs: seq<LogEntry>, id: int, other: int)
    requires other != id
    ensures LogsOf(Without(logs, LogOwner, id), other) == LogsOf(logs, other)
  {
    if logs != [] {
      var init, last := logs[..|logs| - 1], logs[|logs| - 1];
      LogsOfWithout(init, id, other);
      var rest := Without(init, LogOwner, id);
      if last.lotteryId != id {
        assert (rest + [last])[..|rest|] == rest;
      }
    }
  }
}
