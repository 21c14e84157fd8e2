/**
 When the main loop is left, and where: at the first cancellation or the first
 second that meets the goal, whichever comes first, unless the process dies
 before it. While seeding the loop's ticks are those of the deadline controller.
 */
module GoalRuns {
  import opened Wrappers
  import opened Bytes
  import opened Goal
  import opened Tick
  import opened Peer
  import opened Lifecycle
  import opened Deadline

  /** The counters satisfy a goal that is to stop the audit: it has a target to
      track, and every tracked counter is there. */
  predicate Met(s: PeerState, goal: GoalConfig) {
    && goal.enabled && goal.reachedAction == Stop
    && (goal.uploadTarget > 0 || (goal.direction == DownloadAndUpload && goal.downloadTarget > 0))
    && s.uploaded >= goal.uploadTarget
    && (goal.direction == DownloadAndUpload ==> s.downloaded >= goal.downloadTarget)
  }

  /** A second the process lives through. */
  predicate Survived(turn: Turn) {
    turn.Second? && !(turn.announceDue && turn.reply == Died)
  }

  /** The state after the first `n` turns if none of them ends the loop; a
      cancellation changes nothing. */
  function After(c: AuditConfig, e: EngineConfig, id: Identity, l: Live, turns: seq<Turn>, n: nat): Live
    requires n <= |turns|
  {
    if n == 0 then l
    else
      var before := After(c, e, id, l, turns, n - 1);
      if turns[n - 1].Cancel? then before else AfterSecond(c, e, id, before, turns[n - 1])
  }

  /** The first `n` seconds are lived through and none meets the goal. */
  ghost predicate Runs(c: AuditConfig, e: EngineConfig, id: Identity, l: Live, turns: seq<Turn>, n: nat) {
    && n <= |turns|
    && forall i | 0 <= i < n :: Survived(turns[i]) && !Met(After(c, e, id, l, turns, i + 1).state, c.goal)
  }

  /** The loop gets to turn `n` and that turn is a cancellation, or a second the
      process lives through that meets the goal. */
  ghost predicate LeavesAt(c: AuditConfig, e: EngineConfig, id: Identity, l: Live, turns: seq<Turn>, n: nat) {
    && n < |turns| && Runs(c, e, id, l, turns, n)
    && (turns[n].Cancel? || (Survived(turns[n]) && Met(After(c, e, id, l, turns, n + 1).state, c.goal)))
  }

  /** The loop gets to turn `n` and dies there, or the script ends with it. */
  ghost predicate DiesAt(c: AuditConfig, e: EngineConfig, id: Identity, l: Live, turns: seq<Turn>, n: nat) {
    Runs(c, e, id, l, turns, n) && (n < |turns| ==> turns[n].Second? && !Survived(turns[n]))
  }

  lemma {:induction false} MetIff(s: PeerState, goal: GoalConfig)
    ensures EndsRun(s, goal) <==> Met(s, goal)
  {
  }

  /** One turn lived through that does not meet the goal. */
  lemma {:induction false} LoopGoesOn(c: AuditConfig, e: EngineConfig, id: Identity, l: Live, turns: seq<Turn>)
    requires turns != [] && Survived(turns[0]) && !Met(AfterSecond(c, e, id, l, turns[0]).state, c.goal)
    ensures Loop(c, e, id, l, turns) == Loop(c, e, id, AfterSecond(c, e, id, l, turns[0]), turns[1..])
  {
    hide AfterSecond, EndsRun, Met;
    MetIff(AfterSecond(c, e, id, l, turns[0]).state, c.goal);
  }

  lemma {:induction false} LoopFrom(c: AuditConfig, e: EngineConfig, id: Identity, l: Live, turns: seq<Turn>, n: nat)
    requires Runs(c, e, id, l, turns, n)
    ensures Loop(c, e, id, l, turns) == Loop(c, e, id, After(c, e, id, l, turns, n), turns[n..])
  {
    hide AfterSecond, Met, Loop;
    if n == 0 {
      assert turns[0..] == turns;
    } else {
      LoopFrom(c, e, id, l, turns, n - 1);
      assert turns[n - 1..][0] == turns[n - 1] && turns[n - 1..][1..] == turns[n..];
      LoopGoesOn(c, e, id, After(c, e, id, l, turns, n - 1), turns[n - 1..]);
    }
  }

  lemma {:induction false} LeavesThere(c: AuditConfig, e: EngineConfig, id: Identity, l: Live, turns: seq<Turn>, n: nat)
    requires LeavesAt(c, e, id, l, turns, n)
    ensures Loop(c, e, id, l, turns) == (After(c, e, id, l, turns, n + 1), true)
  {
    hide AfterSecond, Met, EndsRun, Runs;
    LoopFrom(c, e, id, l, turns, n);
    assert turns[n..][0] == turns[n];
    MetIff(After(c, e, id, l, turns, n + 1).state, c.goal);
  }

  lemma {:induction false} DiesThere(c: AuditConfig, e: EngineConfig, id: Identity, l: Live, turns: seq<Turn>, n: nat)
    requires DiesAt(c, e, id, l, turns, n)
    ensures Loop(c, e, id, l, turns)
            == (After(c, e, id, l, turns, if n < |turns| then n + 1 else n), false)
  {
    hide AfterSecond, EndsRun;
    LoopFrom(c, e, id, l, turns, n);
    if n < |turns| {
      assert turns[n..][0] == turns[n];
    } else {
      assert turns[n..] == [];
    }
  }

  /** A loop that got to turn `n` comes to its end there or later. */
  lemma {:induction false} EndsSomewhere(c: AuditConfig, e: EngineConfig, id: Identity, l: Live, turns: seq<Turn>, n: nat)
    returns (m: nat)
    requires Runs(c, e, id, l, turns, n)
    ensures LeavesAt(c, e, id, l, turns, m) || DiesAt(c, e, id, l, turns, m)
    decreases |turns| - n
  {
    hide AfterSecond, Met, After;
    m := n;
    if n < |turns| && Survived(turns[n]) && !Met(After(c, e, id, l, turns, n + 1).state, c.goal) {
      m := EndsSomewhere(c, e, id, l, turns, n + 1);
    }
  }

  /** Nothing before the turn the loop is left at could have ended it. */
  lemma {:induction false} LeavesOnce(c: AuditConfig, e: EngineConfig, id: Identity, l: Live, turns: seq<Turn>, n: nat, m: nat)
    requires LeavesAt(c, e, id, l, turns, n) && (LeavesAt(c, e, id, l, turns, m) || DiesAt(c, e, id, l, turns, m))
    ensures n == m
  {
    hide After, Met;
  }

  /** The loop is left for the tail if and only if there is a turn to leave at;
      it is left at that turn, the only one of its kind, with the state the turns
      up to it give. Otherwise it ends where the process dies. */
  lemma {:induction false} LeavesLoopIff(c: AuditConfig, e: EngineConfig, id: Identity, l: Live, turns: seq<Turn>)
    returns (n: nat)
    ensures Loop(c, e, id, l, turns).1 <==> exists k: nat :: LeavesAt(c, e, id, l, turns, k)
    ensures if Loop(c, e, id, l, turns).1
            then && LeavesAt(c, e, id, l, turns, n)
                 && Loop(c, e, id, l, turns).0 == After(c, e, id, l, turns, n + 1)
            else && DiesAt(c, e, id, l, turns, n)
                 && Loop(c, e, id, l, turns).0 == After(c, e, id, l, turns, if n < |turns| then n + 1 else n)
    ensures forall k: nat | LeavesAt(c, e, id, l, turns, k) :: k == n
  {
    hide After, Loop, Met, AfterSecond;
    n := EndsSomewhere(c, e, id, l, turns, 0);
    if DiesAt(c, e, id, l, turns, n) { DiesThere(c, e, id, l, turns, n); } else { LeavesThere(c, e, id, l, turns, n); }
    forall k: nat | LeavesAt(c, e, id, l, turns, k) ensures k == n { LeavesOnce(c, e, id, l, turns, k, n); }
  }

  /** A run is finished exactly when its `started` and `stopped` were lived through
      and there is a turn to leave the loop at. */
  lemma {:induction false} FinishesIff(c: AuditConfig, e: EngineConfig, script: Script, row: Row)
    requires script.client.Some?
    ensures var id := Chosen(Load(row), script.identity);
            var begun := Sent(Begin(c, Load(row), row), id, Started, script.startReply);
            RunOf(c, e, script, row).ending.Finished?
            <==> && script.startReply != Died && script.stopReply != Died
                 && exists n: nat :: LeavesAt(c, e, id, begun, script.turns, n)
  {
    hide Begin, Load, Chosen, Sent, Saved, Loop, LeavesAt, DiesAt, After;
    var id := Chosen(Load(row), script.identity);
    var begun := Sent(Begin(c, Load(row), row), id, Started, script.startReply);
    var _ := LeavesLoopIff(c, e, id, begun, script.turns);
  }

  // ---------- Seeding to the deadline ----------

  ghost predicate AllSurvived(turns: seq<Turn>) {
    forall i | 0 <= i < |turns| :: Survived(turns[i])
  }

  function Moments(turns: seq<Turn>): (r: seq<Moment>)
    requires AllSurvived(turns)
    ensures |r| == |turns| && forall i | 0 <= i < |r| :: r[i] == turns[i].moment
  {
    seq(|turns|, i requires 0 <= i < |turns| => turns[i].moment)
  }

  lemma {:induction false} SecondSeeds(c: AuditConfig, e: EngineConfig, id: Identity, l: Live, turn: Turn)
    requires l.phase.Seed? && turn.Second?
    ensures var t := AfterSecond(c, e, id, l, turn);
            t.phase.Seed? && t.state == Ticked(l.state, Seed, c, e, turn.moment)
  {
    hide Ticked, Saved;
  }

  /** The engine's own loop, seeding, does what the controller's ticks do. */
  lemma {:induction false} SeedingLoop(c: AuditConfig, e: EngineConfig, id: Identity, l: Live, turns: seq<Turn>)
    requires l.phase.Seed? && AllSurvived(turns)
    ensures Loop(c, e, id, l, turns).0.state == Ticks(l.state, c, e, Moments(turns))
    decreases |turns|
  {
    hide AfterSecond, Ticked, EndsRun;
    if turns != [] {
      assert Survived(turns[0]) && Moments(turns)[0] == turns[0].moment;
      assert Moments(turns)[1..] == Moments(turns[1..]);
      SecondSeeds(c, e, id, l, turns[0]);
      SeedingLoop(c, e, id, AfterSecond(c, e, id, l, turns[0]), turns[1..]);
    }
  }

  /** Seeding in one-second turns up to the deadline, whichever are choked, an
      audit that stops at its upload target is left for the tail if and only if
      the last second is free or as many are as bytes are due; and then it has
      uploaded exactly the target. */
  lemma {:induction false} SeedsToDeadlineIff(
    c: AuditConfig, e: EngineConfig, id: Identity, l: Live, from: nat, turns: seq<Turn>)
    requires l.phase.Seed? && AllSurvived(turns) && ReverseMode(c, e) && c.maxUploadBps == 0
    requires Steady(c, from, Moments(turns)) && from + |turns| == c.goal.targetSecs && turns != []
    requires l.state.uploaded < c.goal.uploadTarget && StopsAtTarget(l.state, c)
    ensures var target, last := c.goal.uploadTarget, turns[|turns| - 1].moment;
            var (looped, left) := Loop(c, e, id, l, turns);
            && looped.state.uploaded <= target
            && (left <==> looped.state.uploaded == target)
            && (left <==> || !((c.freezeOnZeroLeechers && last.leechers == 0) || last.burstRoll < e.burstChokeProbability)
                          || Free(ChokedTicks(c, e, Moments(turns))) >= target - l.state.uploaded)
  {
    hide Steady, Ticks, Loop, LeavesAt;
    SeedingLoop(c, e, id, l, turns);
    MeetsDeadlineIff(l.state, c, e, from, Moments(turns));
    SeedingKeepsDownloads(c, e, l.state, Moments(turns));
    LeavesWhenMet(c, e, id, l, turns);
  }

  /** A seeding loop lived through is left exactly when it comes out with the goal met. */
  lemma {:induction false} LeavesWhenMet(c: AuditConfig, e: EngineConfig, id: Identity, l: Live, turns: seq<Turn>)
    requires AllSurvived(turns) && !Met(l.state, c.goal)
    ensures Loop(c, e, id, l, turns).1 <==> Met(Loop(c, e, id, l, turns).0.state, c.goal)
    decreases |turns|
  {
    hide AfterSecond, Met, EndsRun;
    if turns != [] {
      assert Survived(turns[0]);
      var t := AfterSecond(c, e, id, l, turns[0]);
      MetIff(t.state, c.goal);
      if !Met(t.state, c.goal) { LeavesWhenMet(c, e, id, t, turns[1..]); }
    }
  }

  lemma {:induction false} SeedingKeepsDownloads(c: AuditConfig, e: EngineConfig, s: PeerState, ticks: seq<Moment>)
    ensures Ticks(s, c, e, ticks).downloaded == s.downloaded
    decreases |ticks|
  {
    hide Ticked, EndsRun;
    if ticks != [] {
      SeedTick(s, c, e, ticks[0]);
      SeedingKeepsDownloads(c, e, Ticked(s, Seed, c, e, ticks[0]), ticks[1..]);
    }
  }
}
