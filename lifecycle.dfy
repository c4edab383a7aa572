/** What the "새 추첨 만들기" (create) button and the "예, 삭제합니다" (confirm
    delete) button do to the tables (app.py lines 124-139 and 160-162), as
    functions from the tables before to the tables after. */
module Lifecycle {
  import opened Text
  import opened Seqs
  import opened Roster
  import opened Schema

  /** The two options of the "추첨 방식" radio button (app.py line 117). */
  datatype DrawMode = Immediate | Reserved

  /** The option's label, which also appears in the creation log message. */
  function ModeLabel(mode: DrawMode): string {
    match mode
    case Immediate => "즉시 추첨"
    case Reserved => "예약 추첨"
  }

  /** Why a create request is turned away: the warning of line 127 or the
      error of line 129. */
  datatype CreateError = MissingTitleOrRoster | DrawTimeNotInFuture

  /** The validation of lines 126-131: refused with the first failing check,
      or admitted with the draw time to store. */
  datatype Admission = Admitted(drawTime: int) | Refused(error: CreateError)

  datatype CreateOutcome = Created(id: int) | Rejected(error: CreateError)

  function Admit(title: string, names: seq<string>, mode: DrawMode, drawTime: int, now: int): (a: Admission)
    ensures a.Admitted? <==> title != [] && names != [] && (mode == Reserved ==> now < drawTime)
    ensures a == Refused(MissingTitleOrRoster) <==> title == [] || names == []
    ensures a.Admitted? ==> now <= a.drawTime && a.drawTime == (if mode == Reserved then drawTime else now)
  {
    if title == [] || names == [] then Refused(MissingTitleOrRoster)
    else if mode == Reserved && drawTime <= now then Refused(DrawTimeNotInFuture)
    else Admitted(if mode == Reserved then drawTime else now)
  }

  /** The message `add_log` records for a creation (line 138). */
  function CreatedMessage(mode: DrawMode, count: nat): string {
    "추첨 생성됨 (방식: " + ModeLabel(mode) + ", 총 참가자: " + Decimal(count) + "명)"
  }

  /** The creation message records the draw mode and the participant count:
      two creations log the same text only when both agree. */
  lemma CreatedMessageInjective(m1: DrawMode, c1: nat, m2: DrawMode, c2: nat)
    requires CreatedMessage(m1, c1) == CreatedMessage(m2, c2)
    ensures m1 == m2 && c1 == c2
  {
    var pre, mid, post := "추첨 생성됨 (방식: ", ", 총 참가자: ", "명)";
    var a, b := CreatedMessage(m1, c1), CreatedMessage(m2, c2);
    assert |ModeLabel(m1)| == |ModeLabel(m2)| == 5;
    var p := |pre|;
    var q := p + 5 + |mid|;
    assert a[p..p + 5] == ModeLabel(m1);
    assert b[p..p + 5] == ModeLabel(m2);
    assert a[q..|a| - |post|] == Decimal(c1);
    assert b[q..|b| - |post|] == Decimal(c2);
    DecimalInjective(c1, c2);
  }

  /** One participant row per parsed name, in order (line 135-136). */
  function ParticipantRows(id: int, names: seq<string>): seq<Participant> {
    seq(|names|, k requires 0 <= k < |names| => Participant(id, names[k]))
  }

  lemma {:induction false} RosterOfParticipantRows(id: int, names: seq<string>, other: int)
    ensures RosterOf(ParticipantRows(id, names), other) == if other == id then names else []
  {
    if names != [] {
      var init := names[..|names| - 1];
      RosterOfParticipantRows(id, init, other);
      assert ParticipantRows(id, names)[..|names| - 1] == ParticipantRows(id, init);
    }
  }

  /** The create handler of lines 124-139 on the tables: validate, then insert
      the lottery with status `scheduled`, its participants and one log row. */
  function CreateLottery(t: Tables, title: string, numWinners: int, mode: DrawMode, drawTime: int,
                         text: string, now: int): (r: (CreateOutcome, Tables))
    ensures r.0.Rejected? <==> title == [] || ParseRoster(text) == [] || (mode == Reserved && drawTime <= now)
    ensures r.0.Rejected? ==> r.1 == t
  {
    var names := ParseRoster(text);
    match Admit(title, names, mode, drawTime, now)
    case Refused(e) => (Rejected(e), t)
    case Admitted(time) =>
      var id := NewLotteryId(t.lotteries);
      (Created(id),
       Tables(t.lotteries + [Lottery(id, title, time, numWinners, Scheduled, now)],
              t.participants + ParticipantRows(id, names),
              t.winners,
              t.logs + [LogEntry(id, now, CreatedMessage(mode, |names|))]))
  }

  /** Inserting a lottery row with a fresh id and participant rows for it
      keeps the constraints of the tables. */
  lemma InsertLotteryKeepsValid(t: Tables, row: Lottery, names: seq<string>)
    requires Valid(t) && row.id !in Ids(t.lotteries)
    ensures Valid(Tables(t.lotteries + [row], t.participants + ParticipantRows(row.id, names), t.winners, t.logs))
  {
    var lotteries := t.lotteries + [row];
    assert Ids(lotteries) == Ids(t.lotteries) + {row.id} by {
      assert forall l :: l in lotteries <==> l in t.lotteries || l == row;
    }
    assert KeysDistinct(lotteries, LotteryKey) by {
      forall i, j | 0 <= i < j < |lotteries| ensures lotteries[i].id != lotteries[j].id {
        if j == |t.lotteries| {
          assert lotteries[i] in t.lotteries;
        } else {
          assert lotteries[i] == t.lotteries[i] && lotteries[j] == t.lotteries[j];
        }
      }
    }
    assert forall p :: p in ParticipantRows(row.id, names) ==> p.lotteryId == row.id;
  }

  /** A successful create adds one lottery row with a fresh id and keeps the
      constraints of the tables. */
  lemma CreateKeepsValid(t: Tables, title: string, numWinners: int, mode: DrawMode, drawTime: int, text: string, now: int)
    requires Valid(t)
    requires CreateLottery(t, title, numWinners, mode, drawTime, text, now).0.Created?
    ensures var (outcome, t') := CreateLottery(t, title, numWinners, mode, drawTime, text, now);
            outcome.id !in Ids(t.lotteries) && Valid(t')
  {
    var (outcome, t') := CreateLottery(t, title, numWinners, mode, drawTime, text, now);
    var id, names := outcome.id, ParseRoster(text);
    var row := t'.lotteries[|t.lotteries|];
    assert t'.lotteries == t.lotteries + [row];
    InsertLotteryKeepsValid(t, row, names);
    assert Ids(t'.lotteries) == Ids(t.lotteries) + {id} by {
      assert forall l :: l in t'.lotteries <==> l in t.lotteries || l == row;
    }
  }

  /** The row a successful create appends: status `scheduled`, the requested
      title and winner count, created `now`, drawn not before `now` — at
      `now` for an immediate draw, at the requested time for a reserved one. */
  lemma CreateLotteryRow(t: Tables, title: string, numWinners: int, mode: DrawMode, drawTime: int, text: string, now: int)
    requires CreateLottery(t, title, numWinners, mode, drawTime, text, now).0.Created?
    ensures var (outcome, t') := CreateLottery(t, title, numWinners, mode, drawTime, text, now);
            && |t'.lotteries| == |t.lotteries| + 1
            && t'.lotteries[..|t.lotteries|] == t.lotteries
            && var row := t'.lotteries[|t.lotteries|];
               && row.id == outcome.id && row.title == title && row.numWinners == numWinners
               && row.status == Scheduled && row.createdAt == now && now <= row.drawTime
               && (mode == Immediate ==> row.drawTime == now)
               && (mode == Reserved ==> row.drawTime == drawTime)
  {
    var t' := CreateLottery(t, title, numWinners, mode, drawTime, text, now).1;
    assert t'.lotteries[..|t.lotteries|] == t.lotteries;
  }

  /** The new lottery's roster is exactly the parsed names, it has no winner
      yet, and its log holds exactly one entry: the creation message. */
  lemma CreateRecords(t: Tables, title: string, numWinners: int, mode: DrawMode, drawTime: int, text: string, now: int)
    requires Valid(t)
    requires CreateLottery(t, title, numWinners, mode, drawTime, text, now).0.Created?
    ensures var (outcome, t') := CreateLottery(t, title, numWinners, mode, drawTime, text, now);
            var id, names := outcome.id, ParseRoster(text);
            && RosterOf(t'.participants, id) == names
            && WinnerNamesOf(t'.winners, id) == {}
            && LogsOf(t'.logs, id) == [LogEntry(id, now, CreatedMessage(mode, |names|))]
  {
    var (outcome, t') := CreateLottery(t, title, numWinners, mode, drawTime, text, now);
    var id, names := outcome.id, ParseRoster(text);
    var entry := LogEntry(id, now, CreatedMessage(mode, |names|));
    assert forall p :: p in t.participants ==> p.lotteryId != id;
    RosterOfAppend(t.participants, ParticipantRows(id, names), id);
    RosterOfUnowned(t.participants, id);
    RosterOfParticipantRows(id, names, id);
    assert forall e :: e in t.logs ==> e.lotteryId != id;
    LogsOfAppend(t.logs, [entry], id);
    LogsOfUnowned(t.logs, id);
    assert LogsOf([entry], id) == [entry] by {
      assert [entry][..0] == [];
    }
    assert forall w :: w in t.winners ==> w.lotteryId != id;
  }

  /** A create touches no other lottery: its rows, roster, winners and log
      are as before. */
  lemma CreateLeavesOthers(t: Tables, title: string, numWinners: int, mode: DrawMode, drawTime: int, text: string,
                           now: int, other: int)
    requires CreateLottery(t, title, numWinners, mode, drawTime, text, now).0 == Created(NewLotteryId(t.lotteries))
    requires other != NewLotteryId(t.lotteries)
    ensures var t' := CreateLottery(t, title, numWinners, mode, drawTime, text, now).1;
            && (forall l :: l in t.lotteries ==> l in t'.lotteries)
            && RosterOf(t'.participants, other) == RosterOf(t.participants, other)
            && WinnerNamesOf(t'.winners, other) == WinnerNamesOf(t.winners, other)
            && LogsOf(t'.logs, other) == LogsOf(t.logs, other)
  {
    var t' := CreateLottery(t, title, numWinners, mode, drawTime, text, now).1;
    var id, names := NewLotteryId(t.lotteries), ParseRoster(text);
    var entry := LogEntry(id, now, CreatedMessage(mode, |names|));
    RosterOfAppend(t.participants, ParticipantRows(id, names), other);
    RosterOfParticipantRows(id, names, other);
    LogsOfAppend(t.logs, [entry], other);
    assert LogsOf([entry], other) == [] by {
      assert [entry][..0] == [];
    }
  }

  /** `DELETE FROM lotteries WHERE id = ?` with `ON DELETE CASCADE` on every
      child table (lines 19-25, 160-162). */
  function DeleteLottery(t: Tables, id: int): Tables {
    Tables(Without(t.lotteries, LotteryKey, id),
           Without(t.participants, ParticipantOwner, id),
           Without(t.winners, WinnerOwner, id),
           Without(t.logs, LogOwner, id))
  }

  /** After a delete no row of any table refers to the deleted lottery, and
      the tables still satisfy their constraints. */
  lemma DeleteCascades(t: Tables, id: int)
    requires Valid(t)
    ensures var t' := DeleteLottery(t, id);
            && Valid(t')
            && id !in Ids(t'.lotteries)
            && RosterOf(t'.participants, id) == []
            && WinnerNamesOf(t'.winners, id) == {}
            && LogsOf(t'.logs, id) == []
  {
    var t' := DeleteLottery(t, id);
    WithoutKeepsKeysDistinct(t.lotteries, LotteryKey, id);
    assert Ids(t'.lotteries) == Ids(t.lotteries) - {id};
    RosterOfUnowned(t'.participants, id);
    LogsOfUnowned(t'.logs, id);
  }

  /** A delete leaves every other lottery, with its roster, winners and log,
      exactly as it was. */
  lemma DeleteLeavesOthers(t: Tables, id: int, other: int)
    requires other != id
    ensures var t' := DeleteLottery(t, id);
            && (forall l :: l in t.lotteries && l.id == other ==> l in t'.lotteries)
            && RosterOf(t'.participants, other) == RosterOf(t.participants, other)
            && WinnerNamesOf(t'.winners, other) == WinnerNamesOf(t.winners, other)
            && LogsOf(t'.logs, other) == LogsOf(t.logs, other)
  {
    RosterOfWithout(t.participants, id, other);
    LogsOfWithout(t.logs, id, other);
  }

  /** Deleting an id that no longer exists (the statement matches no row)
      changes nothing. */
  lemma DeleteMissing(t: Tables, id: int)
    requires Valid(t) && id !in Ids(t.lotteries)
    ensures DeleteLottery(t, id) == t
  {
    WithoutNothing(t.lotteries, LotteryKey, id);
    WithoutNothing(t.participants, ParticipantOwner, id);
    WithoutNothing(t.winners, WinnerOwner, id);
    WithoutNothing(t.logs, LogOwner, id);
  }
}
