/** `check_and_run_scheduled_draws` (app.py lines 187-200) as a function of
    the tables: the `run_draw(conn, lottery_id, num_winners, candidates)`
    calls it issues, in order. `run_draw` itself is not part of this model. */
module Scan {
  import opened Seqs
  import opened Roster
  import opened Schema
  import opened Lifecycle

  /** The arguments of one `run_draw` call (line 200). */
  datatype DrawRequest = DrawRequest(lotteryId: int, numWinners: int, candidates: seq<string>)

  function RequestOwner(r: DrawRequest): int { r.lotteryId }

  function RequestedIds(requests: seq<DrawRequest>): set<int> {
    set r | r in requests :: r.lotteryId
  }

  /** The `WHERE status = 'scheduled' AND draw_time <= ?` condition of line 190. */
  predicate IsDue(l: Lottery, now: int) {
    l.status == Scheduled && l.drawTime <= now
  }

  /** The rows the query of line 190 returns, in table order. */
  function DueLotteries(lotteries: seq<Lottery>, now: int): (due: seq<Lottery>)
    ensures forall l :: l in due <==> l in lotteries && IsDue(l, now)
    ensures IsSubsequence(due, lotteries)
  {
    if lotteries == [] then []
    else
      var init, last := lotteries[..|lotteries| - 1], lotteries[|lotteries| - 1];
      var rest := DueLotteries(init, now);
      assert lotteries == init + [last];
      if IsDue(last, now) then
        assert (rest + [last])[..|rest|] == rest;
        rest + [last]
      else
        rest
  }

  /** The candidate list of line 198 for one lottery: its roster without the
      entries whose name has already won it. */
  function CandidatesFor(t: Tables, id: int): seq<string> {
    Candidates(RosterOf(t.participants, id), WinnerNamesOf(t.winners, id))
  }

  /** Lines 193-200 for one due lottery: no call, or one `run_draw` call. */
  function RequestsOf(t: Tables, l: Lottery): seq<DrawRequest> {
    var roster := RosterOf(t.participants, l.id);
    if roster == [] then []
    else
      var candidates := Candidates(roster, WinnerNamesOf(t.winners, l.id));
      if |candidates| > 0 then [DrawRequest(l.id, l.numWinners, candidates)] else []
  }

  /** The loop of line 192 over a list of due lotteries. */
  function RequestsFor(t: Tables, due: seq<Lottery>): seq<DrawRequest> {
    if due == [] then []
    else RequestsFor(t, due[..|due| - 1]) + RequestsOf(t, due[|due| - 1])
  }

  /** One more turn of the loop of line 192 appends the calls for the next
      due lottery. */
  lemma RequestsForStep(t: Tables, due: seq<Lottery>, i: int)
    requires 0 <= i < |due|
    ensures RequestsFor(t, due[..i + 1]) == RequestsFor(t, due[..i]) + RequestsOf(t, due[i])
  {
    assert due[..i + 1][..i] == due[..i];
  }

  /** Every `run_draw` call one scan at time `now` issues, in order. */
  function DueRequests(t: Tables, now: int): seq<DrawRequest> {
    RequestsFor(t, DueLotteries(t.lotteries, now))
  }

  /** A request that the scan at `now` may issue: it is for a due lottery of
      the table, carries that lottery's winner count and its candidate list,
      and that list is not empty. */
  ghost predicate IsDueRequest(t: Tables, now: int, r: DrawRequest) {
    exists l :: l in t.lotteries && IsDue(l, now) && CandidatesFor(t, l.id) != []
                && r == DrawRequest(l.id, l.numWinners, CandidatesFor(t, l.id))
  }

  /** The emptiness test of the roster (line 195) is subsumed by that of the
      candidates (line 199): a lottery gets a call exactly when it has a
      candidate. */
  lemma RequestsOfOneLottery(t: Tables, l: Lottery)
    ensures RequestsOf(t, l) == if CandidatesFor(t, l.id) != [] then [DrawRequest(l.id, l.numWinners, CandidatesFor(t, l.id))] else []
  {
    var roster := RosterOf(t.participants, l.id);
    if roster == [] {
      assert multiset(roster) == multiset{};
      assert multiset(CandidatesFor(t, l.id)) == multiset{};
    }
  }

  lemma {:induction false} RequestsForSound(t: Tables, now: int, due: seq<Lottery>)
    requires forall l :: l in due ==> l in t.lotteries && IsDue(l, now)
    ensures forall r :: r in RequestsFor(t, due) ==> IsDueRequest(t, now, r)
  {
    if due != [] {
      var init, last := due[..|due| - 1], due[|due| - 1];
      assert forall l :: l in init ==> l in due;
      RequestsForSound(t, now, init);
      RequestsOfOneLottery(t, last);
    }
  }

  /** Soundness of the scan: it calls `run_draw` only for a lottery that is
      `scheduled` and whose draw time has come, with that lottery's winner
      count and a non-empty candidate list. Completed lotteries and lotteries
      not yet due never get a call. */
  lemma DueRequestsSound(t: Tables, now: int)
    ensures forall r :: r in DueRequests(t, now) ==> IsDueRequest(t, now, r)
  {
    RequestsForSound(t, now, DueLotteries(t.lotteries, now));
  }

  lemma {:induction false} RequestsForComplete(t: Tables, due: seq<Lottery>, l: Lottery)
    requires l in due && CandidatesFor(t, l.id) != []
    ensures DrawRequest(l.id, l.numWinners, CandidatesFor(t, l.id)) in RequestsFor(t, due)
  {
    var init, last := due[..|due| - 1], due[|due| - 1];
    assert due == init + [last];
    if l == last {
      RequestsOfOneLottery(t, l);
    } else {
      RequestsForComplete(t, init, l);
    }
  }

  /** Completeness of the scan: every due `scheduled` lottery with at least
      one candidate gets its call. */
  lemma DueRequestsComplete(t: Tables, now: int, l: Lottery)
    requires l in t.lotteries && IsDue(l, now) && CandidatesFor(t, l.id) != []
    ensures DrawRequest(l.id, l.numWinners, CandidatesFor(t, l.id)) in DueRequests(t, now)
  {
    RequestsForComplete(t, DueLotteries(t.lotteries, now), l);
  }

  /** With `id` a primary key, a lottery gets a call if and only if it is due
      and has a candidate. */
  lemma RequestedIff(t: Tables, now: int, l: Lottery)
    requires KeysDistinct(t.lotteries, LotteryKey) && l in t.lotteries
    ensures l.id in RequestedIds(DueRequests(t, now)) <==> IsDue(l, now) && CandidatesFor(t, l.id) != []
  {
    if l.id in RequestedIds(DueRequests(t, now)) {
      var r :| r in DueRequests(t, now) && r.lotteryId == l.id;
      DueRequestsSound(t, now);
      var l' :| l' in t.lotteries && IsDue(l', now) && CandidatesFor(t, l'.id) != []
                && r == DrawRequest(l'.id, l'.numWinners, CandidatesFor(t, l'.id));
      var i :| 0 <= i < |t.lotteries| && t.lotteries[i] == l;
      var j :| 0 <= j < |t.lotteries| && t.lotteries[j] == l';
      assert i == j;
    } else if IsDue(l, now) && CandidatesFor(t, l.id) != [] {
      DueRequestsComplete(t, now, l);
    }
  }

  /** Each candidate list holds only roster entries, none of them carrying
      the name of an existing winner, and drops every roster entry that does. */
  lemma DueRequestCandidates(t: Tables, now: int, r: DrawRequest)
    requires r in DueRequests(t, now)
    ensures r.candidates != []
    ensures IsSubsequence(r.candidates, RosterOf(t.participants, r.lotteryId))
    ensures forall n :: multiset(r.candidates)[n] ==
                          if n in WinnerNamesOf(t.winners, r.lotteryId) then 0
                          else multiset(RosterOf(t.participants, r.lotteryId))[n]
  {
    DueRequestsSound(t, now);
  }

  lemma {:induction false} RequestsForKeysDistinct(t: Tables, due: seq<Lottery>)
    requires KeysDistinct(due, LotteryKey)
    ensures KeysDistinct(RequestsFor(t, due), RequestOwner)
    ensures RequestedIds(RequestsFor(t, due)) <= Ids(due)
  {
    if due != [] {
      var init, last := due[..|due| - 1], due[|due| - 1];
      assert KeysDistinct(init, LotteryKey);
      RequestsForKeysDistinct(t, init);
      var rest := RequestsFor(t, init);
      assert last.id !in Ids(init) by {
        forall l | l in init ensures l.id != last.id {
          var i :| 0 <= i < |init| && init[i] == l;
          assert due[i] == l;
        }
      }
      var all := rest + RequestsOf(t, last);
      forall i, j | 0 <= i < j < |all| ensures all[i].lotteryId != all[j].lotteryId {
        if j >= |rest| {
          assert all[i] == rest[i] && all[i].lotteryId in RequestedIds(rest);
        } else {
          assert all[i] == rest[i] && all[j] == rest[j];
        }
      }
      assert Ids(init) <= Ids(due) by {
        forall l | l in init ensures l in due { }
      }
    }
  }

  lemma {:induction false} DueLotteriesKeysDistinct(lotteries: seq<Lottery>, now: int)
    requires KeysDistinct(lotteries, LotteryKey)
    ensures KeysDistinct(DueLotteries(lotteries, now), LotteryKey)
  {
    if lotteries != [] {
      var init, last := lotteries[..|lotteries| - 1], lotteries[|lotteries| - 1];
      assert KeysDistinct(init, LotteryKey);
      DueLotteriesKeysDistinct(init, now);
      var rest := DueLotteries(init, now);
      if IsDue(last, now) {
        var due := rest + [last];
        forall i, j | 0 <= i < j < |due| ensures due[i].id != due[j].id {
          if j == |rest| {
            assert due[i] == rest[i] && rest[i] in init;
            var m :| 0 <= m < |init| && init[m] == due[i];
            assert lotteries[m].id != lotteries[|lotteries| - 1].id;
          } else {
            assert due[i] == rest[i] && due[j] == rest[j];
          }
        }
      }
    }
  }

  /** One scan issues at most one call per lottery. */
  lemma DueRequestsDistinct(t: Tables, now: int)
    requires KeysDistinct(t.lotteries, LotteryKey)
    ensures KeysDistinct(DueRequests(t, now), RequestOwner)
  {
    DueLotteriesKeysDistinct(t.lotteries, now);
    RequestsForKeysDistinct(t, DueLotteries(t.lotteries, now));
  }

  /** A lottery that is due stays due as the clock advances: with the tables
      unchanged, a later scan calls `run_draw` for every lottery an earlier
      one did. */
  lemma DueRequestsGrowWithTime(t: Tables, now: int, later: int)
    requires now <= later
    ensures RequestedIds(DueRequests(t, now)) <= RequestedIds(DueRequests(t, later))
  {
    DueRequestsSound(t, now);
    forall id | id in RequestedIds(DueRequests(t, now)) ensures id in RequestedIds(DueRequests(t, later)) {
      var r :| r in DueRequests(t, now) && r.lotteryId == id;
      var l :| l in t.lotteries && IsDue(l, now) && CandidatesFor(t, l.id) != []
               && r == DrawRequest(l.id, l.numWinners, CandidatesFor(t, l.id));
      DueRequestsComplete(t, later, l);
    }
  }

  /** Two tables that agree on the roster and winners of every listed lottery
      give the same calls for those lotteries. */
  lemma {:induction false} RequestsForAgree(t: Tables, t': Tables, due: seq<Lottery>)
    requires forall l :: l in due ==> RosterOf(t'.participants, l.id) == RosterOf(t.participants, l.id)
                                      && WinnerNamesOf(t'.winners, l.id) == WinnerNamesOf(t.winners, l.id)
    ensures RequestsFor(t', due) == RequestsFor(t, due)
  {
    if due != [] {
      var init := due[..|due| - 1];
      assert forall l :: l in init ==> l in due;
      RequestsForAgree(t, t', init);
    }
  }

  lemma DueLotteriesAppend(lotteries: seq<Lottery>, row: Lottery, now: int)
    ensures DueLotteries(lotteries + [row], now) == DueLotteries(lotteries, now) + if IsDue(row, now) then [row] else []
  {
    assert (lotteries + [row])[..|lotteries|] == lotteries;
  }

  /** A create changes no call the scan issues for the lotteries that were
      already there. */
  lemma CreateKeepsOldRequests(t: Tables, title: string, numWinners: int, mode: DrawMode, drawTime: int, text: string,
                               now: int, id: int, t': Tables, due: seq<Lottery>)
    requires CreateLottery(t, title, numWinners, mode, drawTime, text, now) == (Created(id), t')
    requires forall l :: l in due ==> l in t.lotteries
    ensures RequestsFor(t', due) == RequestsFor(t, due)
  {
    forall l | l in due
      ensures RosterOf(t'.participants, l.id) == RosterOf(t.participants, l.id)
      ensures WinnerNamesOf(t'.winners, l.id) == WinnerNamesOf(t.winners, l.id)
    {
      CreateLeavesOthers(t, title, numWinners, mode, drawTime, text, now, l.id);
    }
    RequestsForAgree(t, t', due);
  }

  /** The call the scan issues for a lottery just created: its whole parsed
      roster is the candidate list. */
  lemma CreatedLotteryRequest(t: Tables, title: string, numWinners: int, mode: DrawMode, drawTime: int, text: string,
                              now: int, id: int, t': Tables)
    requires Valid(t)
    requires CreateLottery(t, title, numWinners, mode, drawTime, text, now) == (Created(id), t')
    ensures RequestsOf(t', t'.lotteries[|t'.lotteries| - 1]) == [DrawRequest(id, numWinners, ParseRoster(text))]
  {
    CreateLotteryRow(t, title, numWinners, mode, drawTime, text, now);
    CreateRecords(t, title, numWinners, mode, drawTime, text, now);
    CandidatesWithoutWinners(ParseRoster(text));
    RequestsOfOneLottery(t', t'.lotteries[|t'.lotteries| - 1]);
  }

  /** The scan right after a successful create issues the calls it issued
      before, plus — when the new lottery is already due — one call for it
      whose candidates are its whole roster, as parsed. */
  lemma ScanAfterCreate(t: Tables, title: string, numWinners: int, mode: DrawMode, drawTime: int, text: string,
                        now: int, id: int, t': Tables, later: int)
    requires Valid(t)
    requires CreateLottery(t, title, numWinners, mode, drawTime, text, now) == (Created(id), t')
    ensures DueRequests(t', later)
            == DueRequests(t, later)
               + if IsDue(t'.lotteries[|t'.lotteries| - 1], later)
                 then [DrawRequest(id, numWinners, ParseRoster(text))] else []
  {
    CreateLotteryRow(t, title, numWinners, mode, drawTime, text, now);
    var row := t'.lotteries[|t.lotteries|];
    assert t'.lotteries == t.lotteries + [row];
    var due := DueLotteries(t.lotteries, later);
    DueLotteriesAppend(t.lotteries, row, later);
    CreateKeepsOldRequests(t, title, numWinners, mode, drawTime, text, now, id, t', due);
    if IsDue(row, later) {
      CreatedLotteryRequest(t, title, numWinners, mode, drawTime, text, now, id, t');
      assert (due + [row])[..|due|] == due;
    }
  }

  /** An immediate draw is due at once: from the moment of creation on, every
      scan asks to draw it, from its whole roster, until the tables change. */
  lemma ImmediateCreateIsRequested(t: Tables, title: string, numWinners: int, drawTime: int, text: string,
                                   now: int, id: int, t': Tables, later: int)
    requires Valid(t) && now <= later
    requires CreateLottery(t, title, numWinners, Immediate, drawTime, text, now) == (Created(id), t')
    ensures DrawRequest(id, numWinners, ParseRoster(text)) in DueRequests(t', later)
  {
    ScanAfterCreate(t, title, numWinners, Immediate, drawTime, text, now, id, t', later);
    CreateLotteryRow(t, title, numWinners, Immediate, drawTime, text, now);
  }

  /** A reserved draw is not requested before its time. */
  lemma ReservedCreateWaits(t: Tables, title: string, numWinners: int, drawTime: int, text: string,
                            now: int, id: int, t': Tables, later: int)
    requires Valid(t) && later < drawTime
    requires CreateLottery(t, title, numWinners, Reserved, drawTime, text, now) == (Created(id), t')
    ensures DueRequests(t', later) == DueRequests(t, later)
  {
    ScanAfterCreate(t, title, numWinners, Reserved, drawTime, text, now, id, t', later);
    CreateLotteryRow(t, title, numWinners, Reserved, drawTime, text, now);
  }

  lemma {:induction false} DueLotteriesWithout(lotteries: seq<Lottery>, id: int, now: int)
    ensures DueLotteries(Without(lotteries, LotteryKey, id), now) == Without(DueLotteries(lotteries, now), LotteryKey, id)
  {
    if lotteries != [] {
      var init, last := lotteries[..|lotteries| - 1], lotteries[|lotteries| - 1];
      DueLotteriesWithout(init, id, now);
      var kept := Without(init, LotteryKey, id);
      var due := DueLotteries(init, now);
      if last.id != id {
        assert (kept + [last])[..|kept|] == kept;
      }
      if IsDue(last, now) {
        assert (due + [last])[..|due|] == due;
      }
    }
  }

  lemma {:induction false} RequestsForWithout(t: Tables, id: int, due: seq<Lottery>)
    ensures RequestsFor(DeleteLottery(t, id), Without(due, LotteryKey, id)) == Without(RequestsFor(t, due), RequestOwner, id)
  {
    var t' := DeleteLottery(t, id);
    if due != [] {
      var init, last := due[..|due| - 1], due[|due| - 1];
      RequestsForWithout(t, id, init);
      var kept := Without(init, LotteryKey, id);
      WithoutAppend(RequestsFor(t, init), RequestsOf(t, last), RequestOwner, id);
      RequestsOfOneLottery(t, last);
      if last.id == id {
        var one := RequestsOf(t, last);
        if one != [] {
          assert one[..0] == [];
        }
        assert Without(one, RequestOwner, id) == [];
      } else {
        DeleteLeavesOthers(t, id, last.id);
        RequestsOfOneLottery(t', last);
        assert (kept + [last])[..|kept|] == kept;
        var one := RequestsOf(t, last);
        WithoutNothing(one, RequestOwner, id);
      }
    }
  }

  /** The scan right after a delete issues the calls it issued before, minus
      the one for the deleted lottery: a deleted lottery is never drawn. */
  lemma ScanAfterDelete(t: Tables, id: int, now: int)
    ensures DueRequests(DeleteLottery(t, id), now) == Without(DueRequests(t, now), RequestOwner, id)
    ensures id !in RequestedIds(DueRequests(DeleteLottery(t, id), now))
  {
    DueLotteriesWithout(t.lotteries, id, now);
    RequestsForWithout(t, id, DueLotteries(t.lotteries, now));
  }

  /** How the loop of lines 192-200 ends as written. `run_draw` is defined
      nowhere in app.py, so the first call raises `NameError`: the loop, and
      the page that runs the scan at line 63, stop at that lottery. */
  datatype ScanOutcome = ScanFinished | NameErrorAt(lotteryId: int)

  function ScanAsWritten(t: Tables, due: seq<Lottery>): ScanOutcome {
    if due == [] then ScanFinished
    else
      match ScanAsWritten(t, due[..|due| - 1])
      case NameErrorAt(id) => NameErrorAt(id)
      case ScanFinished =>
        var l := due[|due| - 1];
        if RequestsOf(t, l) != [] then NameErrorAt(l.id) else ScanFinished
  }

  /** The scan as written fails exactly when it would make a call, and it
      fails at the first lottery that would get one: no later lottery is
      reached. */
  lemma {:induction false} ScanAsWrittenHalts(t: Tables, due: seq<Lottery>)
    ensures ScanAsWritten(t, due).NameErrorAt? <==> RequestsFor(t, due) != []
    ensures ScanAsWritten(t, due).NameErrorAt? ==> ScanAsWritten(t, due).lotteryId == RequestsFor(t, due)[0].lotteryId
  {
    if due != [] {
      var init, l := due[..|due| - 1], due[|due| - 1];
      ScanAsWrittenHalts(t, init);
      RequestsOfOneLottery(t, l);
      if RequestsFor(t, init) != [] {
        assert RequestsFor(t, due)[0] == RequestsFor(t, init)[0];
      }
    }
  }

  /** Any successful immediate create makes every later scan fail, since the
      scan writes nothing and so nothing marks the lottery as drawn. */
  lemma ImmediateCreateHaltsScan(t: Tables, title: string, numWinners: int, drawTime: int, text: string,
                                 now: int, id: int, t': Tables, later: int)
    requires Valid(t) && now <= later
    requires CreateLottery(t, title, numWinners, Immediate, drawTime, text, now) == (Created(id), t')
    ensures ScanAsWritten(t', DueLotteries(t'.lotteries, later)).NameErrorAt?
  {
    ImmediateCreateIsRequested(t, title, numWinners, drawTime, text, now, id, t', later);
    ScanAsWrittenHalts(t', DueLotteries(t'.lotteries, later));
  }
}
