/** The database connection of app.py seen as an object: its four tables are
    fields, and the handlers that write them (`add_log`, the create button,
    the confirm-delete button) are methods that reassign those fields. The
    scheduled-draw scan only reads them. */
module App {
  import opened Seqs
  import opened Roster
  import opened Schema
  import opened Lifecycle
  import opened Scan

  class Ledger {
    var lotteries: seq<Lottery>
    var participants: seq<Participant>
    var winners: seq<Winner>
    var logs: seq<LogEntry>

    /** The current contents of the four tables. */
    function Snapshot(): Tables
      reads this
    {
      Tables(lotteries, participants, winners, logs)
    }

    /** The primary-key and foreign-key constraints hold. */
    ghost predicate Invariant()
      reads this
    {
      Valid(Snapshot())
    }

    /** `setup_database` (lines 10-28): the tables already in the database
        file are kept as they are (`CREATE TABLE IF NOT EXISTS`). */
    constructor Open(existing: Tables)
      requires Valid(existing)
      ensures Invariant() && Snapshot() == existing
    {
      lotteries := existing.lotteries;
      participants := existing.participants;
      winners := existing.winners;
      logs := existing.logs;
    }

    /** `add_log` (lines 30-33): appends one log row stamped with the current
        time. With `PRAGMA foreign_keys = ON` an unknown lottery id makes the
        insert fail (SQLite raises an integrity error) and nothing is written. */
    method AddLog(lotteryId: int, message: string, now: int) returns (inserted: bool)
      requires Invariant()
      modifies this
      ensures Invariant()
      ensures inserted <==> lotteryId in Ids(lotteries)
      ensures logs == old(logs) + (if inserted then [LogEntry(lotteryId, now, message)] else [])
      ensures lotteries == old(lotteries) && participants == old(participants) && winners == old(winners)
    {
      if lotteryId !in Ids(lotteries) {
        return false;
      }
      logs := logs + [LogEntry(lotteryId, now, message)];
      inserted := true;
    }

    /** The create button (lines 124-139). A rejected request writes nothing;
        an accepted one inserts the lottery, then one participant row per
        parsed name, then the creation log entry. */
    method Create(title: string, numWinners: int, mode: DrawMode, drawTime: int, participantsText: string, now: int)
      returns (outcome: CreateOutcome)
      requires Invariant()
      modifies this
      ensures Invariant()
      ensures (outcome, Snapshot()) == CreateLottery(old(Snapshot()), title, numWinners, mode, drawTime, participantsText, now)
    {
      var names := ParseRoster(participantsText);
      if title == [] || names == [] {
        return Rejected(MissingTitleOrRoster);
      }
      if mode == Reserved && drawTime <= now {
        return Rejected(DrawTimeNotInFuture);
      }
      var finalDrawTime := if mode == Reserved then drawTime else now;
      var id := NewLotteryId(lotteries);
      InsertLottery(Lottery(id, title, finalDrawTime, numWinners, Scheduled, now), names);
      var logged := AddLog(id, CreatedMessage(mode, |names|), now);
      outcome := Created(id);
      assert Admit(title, names, mode, drawTime, now) == Admitted(finalDrawTime);
    }

    /** Lines 133-136: the `INSERT INTO lotteries` of a row with a fresh id,
        then one `INSERT INTO participants` per name, in order. */
    method InsertLottery(row: Lottery, names: seq<string>)
      requires Invariant() && row.id !in Ids(lotteries)
      modifies this
      ensures Invariant() && row.id in Ids(lotteries)
      ensures lotteries == old(lotteries) + [row]
      ensures participants == old(participants) + ParticipantRows(row.id, names)
      ensures winners == old(winners) && logs == old(logs)
    {
      InsertLotteryKeepsValid(Snapshot(), row, names);
      lotteries := lotteries + [row];
      var i := 0;
      while i < |names|
        invariant 0 <= i <= |names|
        invariant participants == old(participants) + ParticipantRows(row.id, names[..i])
        invariant lotteries == old(lotteries) + [row]
        invariant winners == old(winners) && logs == old(logs)
      {
        assert ParticipantRows(row.id, names[..i + 1]) == ParticipantRows(row.id, names[..i]) + [Participant(row.id, names[i])];
        participants := participants + [Participant(row.id, names[i])];
        i := i + 1;
      }
      assert names[..i] == names;
      assert lotteries[|lotteries| - 1] == row;
    }

    /** The confirm-delete button (lines 160-162): the lottery goes, and the
        `ON DELETE CASCADE` foreign keys take its participants, winners and
        log rows with it. */
    method Delete(id: int)
      requires Invariant()
      modifies this
      ensures Invariant()
      ensures Snapshot() == DeleteLottery(old(Snapshot()), id)
    {
      lotteries := Without(lotteries, LotteryKey, id);
      participants := Without(participants, ParticipantOwner, id);
      winners := Without(winners, WinnerOwner, id);
      logs := Without(logs, LogOwner, id);
      DeleteCascades(old(Snapshot()), id);
    }

    /** `check_and_run_scheduled_draws` (lines 187-200): for every lottery
        the due query returns, read its roster, drop the entries carrying an
        existing winner's name, and ask for a draw when someone is left. The
        calls are returned instead of made; nothing is written. */
    method ScanDueDraws(now: int) returns (requests: seq<DrawRequest>)
      ensures requests == DueRequests(Snapshot(), now)
      ensures forall r :: r in requests ==> IsDueRequest(Snapshot(), now, r)
      ensures forall l :: l in lotteries && IsDue(l, now) && CandidatesFor(Snapshot(), l.id) != [] ==>
                DrawRequest(l.id, l.numWinners, CandidatesFor(Snapshot(), l.id)) in requests
    {
      var t := Snapshot();
      var due := DueLotteries(t.lotteries, now);
      requests := [];
      for i := 0 to |due|
        invariant requests == RequestsFor(t, due[..i])
      {
        var l := due[i];
        var roster := RosterOf(t.participants, l.id);
        if roster != [] {
          var existing := WinnerNamesOf(t.winners, l.id);
          var candidates := Candidates(roster, existing);
          if |candidates| > 0 {
            requests := requests + [DrawRequest(l.id, l.numWinners, candidates)];
          }
        }
        RequestsForStep(t, due, i);
      }
      assert due[..|due|] == due;
      DueRequestsSound(t, now);
      forall l | l in t.lotteries && IsDue(l, now) && CandidatesFor(t, l.id) != []
        ensures DrawRequest(l.id, l.numWinners, CandidatesFor(t, l.id)) in requests
      {
        DueRequestsComplete(t, now, l);
      }
    }
  }
}
