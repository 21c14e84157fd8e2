/**
 Chains of runs over one audit's row: how often `completed` is announced, what
 the tracker sees fall and rise, and what a crash can undo.
 */
module LifecycleChains {
  import opened Wrappers
  import opened Bytes
  import opened HashText
  import opened Goal
  import opened Tick
  import opened Peer
  import opened Lifecycle
  import opened LifecycleLaws

  // ---------- What a save tells the next run ----------

  /** The next run begins where the last save was made. */
  lemma {:induction false} SavedStart(c: AuditConfig, id: Identity, l: Live)
    requires Conserved(l.state, c) && c.torrentSize > 0 && |id.peerId| == INFO_HASH_LEN
    ensures Start(c, Saved(l, id)).state == l.state && Start(c, Saved(l, id)).completedSent == l.completedSent
  {
    hide Load, Saved, Fresh;
    LoadsWhatWasSaved(l, id);
    LooksFreshIff(l.state, c);
  }

  lemma {:induction false} SentState(l: Live, id: Identity, event: AnnounceEvent, reply: Reply)
    ensures Sent(l, id, event, reply).state == l.state
  {
    hide Saved;
  }

  // ---------- Which runs lose `completed` ----------

  /** A second that ends in a save. */
  predicate Saves(turn: Turn) {
    turn.Second? && (turn.statDue || (turn.announceDue && turn.reply.Answered?))
  }

  /** Nothing from here on saves: no second of the loop does, and the tail is not
      reached or dies at `stopped`. */
  predicate NeverSaves(c: AuditConfig, e: EngineConfig, id: Identity, l: Live, turns: seq<Turn>, stopReply: Reply)
    decreases |turns|
  {
    if turns == [] then true
    else if turns[0].Cancel? then stopReply.Died?
    else
      var t := AfterSecond(c, e, id, l, turns[0]);
      !Saves(turns[0])
      && (Dies(turns[0]) || if GoalStops(c, t) then stopReply.Died? else NeverSaves(c, e, id, t, turns[1..], stopReply))
  }

  /** The second in which `completed` is announced: an announce is due and the
      tick has left nothing. */
  predicate CompletesIn(c: AuditConfig, e: EngineConfig, l: Live, turn: Turn) {
    turn.Second? && turn.announceDue
    && CompletesNow(l.(state := Ticked(l.state, l.phase, c, e, turn.moment)))
  }

  /** The loop comes to announce `completed`, gets no response to it, and nothing
      after that saves. */
  predicate Loses(c: AuditConfig, e: EngineConfig, id: Identity, l: Live, turns: seq<Turn>, stopReply: Reply)
    decreases |turns|
  {
    if turns == [] || turns[0].Cancel? then false
    else
      var t := AfterSecond(c, e, id, l, turns[0]);
      if CompletesIn(c, e, l, turns[0]) then
        !turns[0].reply.Answered?
        && (Dies(turns[0]) || if GoalStops(c, t) then stopReply.Died? else NeverSaves(c, e, id, t, turns[1..], stopReply))
      else !Dies(turns[0]) && !GoalStops(c, t) && Loses(c, e, id, t, turns[1..], stopReply)
  }

  /** The same for a whole run: past the probe and past `started`. */
  predicate RunLoses(c: AuditConfig, e: EngineConfig, script: Script, row: Row) {
    var id := Chosen(Load(row), script.identity);
    && (script.client.Some? || Probed(c, InOrder(script.probes, script.draws)).1.None?) && !script.startReply.Died?
    && Loses(c, e, id, Sent(Begin(c, Load(row), row), id, Started, script.startReply), script.turns, script.stopReply)
  }

  /** Whether the row tells of `completed` once the run is over, tail included. */
  predicate Tells(c: AuditConfig, e: EngineConfig, id: Identity, l: Live, turns: seq<Turn>, stopReply: Reply) {
    var (t, stops) := Loop(c, e, id, l, turns);
    if !stops || stopReply.Died? then Done(c, t.row) else t.completedSent
  }

  /** Once told, always told: every later save tells it again. */
  lemma {:induction false} StaysTold(c: AuditConfig, e: EngineConfig, id: Identity, first: Row, l: Live, turns: seq<Turn>)
    requires Inv(c, id, first, l) && c.torrentSize > 0 && |id.peerId| == INFO_HASH_LEN
    requires l.completedSent && Done(c, l.row)
    ensures var t := Loop(c, e, id, l, turns).0; t.completedSent && Done(c, t.row)
    decreases |turns|
  {
    hide Inv, AfterSecond, GoalStops;
    if turns != [] && turns[0].Second? {
      SecondKeepsInv(c, e, id, first, l, turns[0]);
      InvConserves(c, id, first, l);
      SecondTells(c, e, id, l, turns[0]);
      StaysTold(c, e, id, first, AfterSecond(c, e, id, l, turns[0]), turns[1..]);
    }
  }

  lemma {:induction false} InvConserves(c: AuditConfig, id: Identity, first: Row, l: Live)
    requires Inv(c, id, first, l)
    ensures Conserved(l.state, c)
  {
  }

  /** After a second the row tells what memory holds if it saved, and what it told
      before if not. */
  lemma {:induction false} SecondTells(c: AuditConfig, e: EngineConfig, id: Identity, l: Live, turn: Turn)
    requires Conserved(l.state, c) && c.torrentSize > 0 && |id.peerId| == INFO_HASH_LEN && turn.Second?
    ensures var t := AfterSecond(c, e, id, l, turn);
            && t.completedSent == (l.completedSent || CompletesIn(c, e, l, turn))
            && (Saves(turn) && !CompletesIn(c, e, l, turn) ==> Done(c, t.row) == t.completedSent)
            && (CompletesIn(c, e, l, turn) && turn.reply.Answered? ==> Done(c, t.row))
            && (CompletesIn(c, e, l, turn) && !turn.reply.Answered? ==>
                  Done(c, t.row) == if turn.statDue then l.completedSent else Done(c, l.row))
            && (!Saves(turn) ==> t.row == l.row)
  {
    hide Ticked, Saved, Start, Conserved;
    TickConserves(l.state, l.phase, c, e, turn.moment);
    var ticked := l.(state := Ticked(l.state, l.phase, c, e, turn.moment));
    SavedStart(c, id, ticked);
    var noted := if turn.statDue then ticked.(row := Saved(ticked, id)) else ticked;
    var done := noted.(phase := Seed, completedSent := true);
    SavedStart(c, id, done.(announces := done.announces + [Announce(Completed, id, done.state)]));
    SavedStart(c, id, noted.(announces := noted.announces + [Announce(NoEvent, id, noted.state)]));
  }

  lemma {:induction false} NeverSavesIff(
    c: AuditConfig, e: EngineConfig, id: Identity, first: Row, l: Live, turns: seq<Turn>, stopReply: Reply)
    requires Inv(c, id, first, l) && c.torrentSize > 0 && |id.peerId| == INFO_HASH_LEN
    requires l.completedSent && !Done(c, l.row)
    ensures NeverSaves(c, e, id, l, turns, stopReply) <==> !Tells(c, e, id, l, turns, stopReply)
    decreases |turns|
  {
    hide Inv, AfterSecond, GoalStops, Done;
    if turns != [] && turns[0].Second? {
      var t := AfterSecond(c, e, id, l, turns[0]);
      SecondKeepsInv(c, e, id, first, l, turns[0]);
      InvConserves(c, id, first, l);
      SecondTells(c, e, id, l, turns[0]);
      NoSecondCompletion(c, e, l, turns[0]);
      if Saves(turns[0]) {
        StaysTold(c, e, id, first, t, turns[1..]);
      } else {
        NeverSavesIff(c, e, id, first, t, turns[1..], stopReply);
      }
    }
  }

  lemma {:induction false} NoSecondCompletion(c: AuditConfig, e: EngineConfig, l: Live, turn: Turn)
    requires l.completedSent
    ensures !CompletesIn(c, e, l, turn)
  {
    hide Ticked;
  }

  lemma {:induction false} LosesIff(
    c: AuditConfig, e: EngineConfig, id: Identity, first: Row, l: Live, turns: seq<Turn>, stopReply: Reply)
    requires Inv(c, id, first, l) && c.torrentSize > 0 && |id.peerId| == INFO_HASH_LEN
    requires !l.completedSent && !Done(c, l.row)
    ensures Loses(c, e, id, l, turns, stopReply)
            <==> Loop(c, e, id, l, turns).0.completedSent && !Tells(c, e, id, l, turns, stopReply)
    decreases |turns|
  {
    hide Inv, AfterSecond, GoalStops, Done, CompletesIn;
    if turns != [] && turns[0].Second? {
      var t := AfterSecond(c, e, id, l, turns[0]);
      SecondKeepsInv(c, e, id, first, l, turns[0]);
      InvConserves(c, id, first, l);
      SecondTells(c, e, id, l, turns[0]);
      CompletesAnnounces(c, e, l, turns[0]);
      if !CompletesIn(c, e, l, turns[0]) {
        LosesIff(c, e, id, first, t, turns[1..], stopReply);
      } else if turns[0].reply.Answered? {
        StaysTold(c, e, id, first, t, turns[1..]);
      } else {
        NeverSavesIff(c, e, id, first, t, turns[1..], stopReply);
        StaysCompleted(c, e, id, t, turns[1..]);
      }
    }
  }

  lemma {:induction false} CompletesAnnounces(c: AuditConfig, e: EngineConfig, l: Live, turn: Turn)
    ensures CompletesIn(c, e, l, turn) ==> turn.Second? && turn.announceDue
  {
    hide Ticked;
  }

  lemma {:induction false} StaysCompleted(c: AuditConfig, e: EngineConfig, id: Identity, l: Live, turns: seq<Turn>)
    requires l.completedSent
    ensures Loop(c, e, id, l, turns).0.completedSent
    decreases |turns|
  {
    hide Ticked, Saved, GoalStops;
    if turns != [] && turns[0].Second? {
      StaysCompleted(c, e, id, AfterSecond(c, e, id, l, turns[0]), turns[1..]);
    }
  }

  /** The run announced `completed` and died before saving that it had. */
  predicate Lost(c: AuditConfig, o: Outcome) {
    Completions(o.announces) == 1 && !Done(c, o.row)
  }

  /** A run loses `completed` exactly when it began without it and its script lets
      it announce it unanswered with no save to follow. */
  lemma {:induction false} LostIff(c: AuditConfig, e: EngineConfig, script: Script, row: Row)
    requires Runnable(c, script, row)
    ensures Lost(c, RunOf(c, e, script, row)) <==> !Done(c, row) && RunLoses(c, e, script, row)
  {
    hide Loop, Saved, Begin, Start, Attack, Load, Chosen, Inv, Loses, Tells;
    StartedFirstStoppedLast(c, e, script, row);
    RunCompletesOnce(c, e, script, row);
    AttackLosesIff(c, e, script, row);
  }

  lemma {:induction false} AttackLosesIff(c: AuditConfig, e: EngineConfig, script: Script, row: Row)
    requires Runnable(c, script, row)
    ensures var l := Attack(c, e, script, row).0; var id := Chosen(Load(row), script.identity);
            var begun := Sent(Begin(c, Load(row), row), id, Started, script.startReply);
            Completions(l.announces) == 1 && !Done(c, l.row)
            <==> !Done(c, row) && !script.startReply.Died? && Loses(c, e, id, begun, script.turns, script.stopReply)
  {
    hide Loop, Saved, Begin, Start, Load, Chosen, Inv, Loses, Sent;
    var id := Chosen(Load(row), script.identity);
    AttackKeepsInv(c, e, script, row);
    StartKeepsInv(c, id, row);
    BeginIsStart(c, row);
    var start, begun := Start(c, row), Sent(Start(c, row), id, Started, script.startReply);
    SentKeepsInv(c, id, row, start, Started, script.startReply);
    StartTells(c, id, row, script.startReply);
    LoopKeepsInv(c, e, id, row, begun, script.turns);
    var looped := Loop(c, e, id, begun, script.turns).0;
    SentKeepsInv(c, id, row, looped, Stopped, script.stopReply);
    TailTells(c, id, row, looped, script.stopReply);
    InvCounts(c, id, row, begun);
    InvCounts(c, id, row, looped);
    InvCounts(c, id, row, Attack(c, e, script, row).0);
    if !Done(c, row) && !script.startReply.Died? {
      LosesIff(c, e, id, row, begun, script.turns, script.stopReply);
    }
  }

  lemma {:induction false} InvCounts(c: AuditConfig, id: Identity, first: Row, l: Live)
    requires Inv(c, id, first, l)
    ensures Completions(l.announces) == (if l.completedSent && !Done(c, first) then 1 else 0)
    ensures Done(c, first) ==> Done(c, l.row)
    ensures Done(c, l.row) ==> l.completedSent
  {
    hide Start, RowOk, Completions;
  }

  lemma {:induction false} StartTells(c: AuditConfig, id: Identity, row: Row, reply: Reply)
    requires RowOk(c, row) && c.torrentSize > 0 && |id.peerId| == INFO_HASH_LEN
    ensures var begun := Sent(Start(c, row), id, Started, reply);
            begun.completedSent == Done(c, row) && Done(c, begun.row) == Done(c, row)
  {
    hide Saved;
    StartIsSound(c, row);
    StartRow(c, row);
    var start := Start(c, row);
    hide Start, Conserved;
    SavedStart(c, id, start.(announces := start.announces + [Announce(Started, id, start.state)]));
  }

  lemma {:induction false} StartRow(c: AuditConfig, row: Row)
    ensures Start(c, row).row == row
  {
    hide Fresh, Load;
  }

  lemma {:induction false} TailTells(c: AuditConfig, id: Identity, first: Row, l: Live, reply: Reply)
    requires Inv(c, id, first, l) && c.torrentSize > 0 && |id.peerId| == INFO_HASH_LEN
    ensures var stopped := Sent(l, id, Stopped, reply);
            && stopped.completedSent == l.completedSent
            && (reply.Died? ==> stopped.row == l.row)
            && Done(c, Saved(stopped, id)) == l.completedSent
  {
    hide Saved, Start, Conserved;
    InvConserves(c, id, first, l);
    SentState(l, id, Stopped, reply);
    SavedStart(c, id, Sent(l, id, Stopped, reply));
  }

  // ---------- Chains of runs ----------

  /** Runs one after the other over the same audit's row. */
  ghost predicate IsChain(c: AuditConfig, e: EngineConfig, scripts: seq<Script>, rows: seq<Row>, outs: seq<Outcome>) {
    && |rows| == |scripts| + 1 && |outs| == |scripts|
    && c.torrentSize > 0 && RowOk(c, rows[0])
    && forall i {:trigger outs[i]} | 0 <= i < |scripts| ::
      && |scripts[i].identity.peerId| == INFO_HASH_LEN
      && outs[i] == RunOf(c, e, scripts[i], rows[i]) && rows[i + 1] == outs[i].row
  }

  function AllCompletions(outs: seq<Outcome>): nat {
    if outs == [] then 0
    else AllCompletions(outs[..|outs| - 1]) + Completions(outs[|outs| - 1].announces)
  }

  /** The runs whose script loses `completed`. */
  function Losses(c: AuditConfig, e: EngineConfig, scripts: seq<Script>, rows: seq<Row>): nat
    requires |rows| == |scripts| + 1
    decreases |scripts|
  {
    if scripts == [] then 0
    else
      var n := |scripts| - 1;
      Losses(c, e, scripts[..n], rows[..n + 1]) + if !Done(c, rows[n]) && RunLoses(c, e, scripts[n], rows[n]) then 1 else 0
  }

  lemma {:induction false} ChainPrefix(c: AuditConfig, e: EngineConfig, scripts: seq<Script>, rows: seq<Row>, outs: seq<Outcome>)
    requires IsChain(c, e, scripts, rows, outs) && scripts != []
    ensures var n := |scripts| - 1; IsChain(c, e, scripts[..n], rows[..n + 1], outs[..n])
  {
    hide RunOf, RowOk;
    var n := |scripts| - 1;
    forall i {:trigger outs[..n][i]} | 0 <= i < n
      ensures |scripts[..n][i].identity.peerId| == INFO_HASH_LEN
      ensures outs[..n][i] == RunOf(c, e, scripts[..n][i], rows[..n + 1][i]) && rows[..n + 1][i + 1] == outs[..n][i].row
    {
      assert outs[..n][i] == outs[i];
    }
  }

  /** Over any chain, crashes included, `completed` is announced once for every
      run whose script loses it, and once more if the row has come to tell of it. */
  lemma {:induction false} CompletedExactly(c: AuditConfig, e: EngineConfig, scripts: seq<Script>, rows: seq<Row>, outs: seq<Outcome>)
    requires IsChain(c, e, scripts, rows, outs)
    ensures RowOk(c, rows[|scripts|])
    ensures AllCompletions(outs)
            == Losses(c, e, scripts, rows) + if Done(c, rows[|scripts|]) && !Done(c, rows[0]) then 1 else 0
    ensures Done(c, rows[0]) ==> Done(c, rows[|scripts|]) && AllCompletions(outs) == 0
    decreases |scripts|
  {
    hide RunOf, RowOk, Done, Completions, Announceable, RunLoses;
    if scripts != [] {
      var n := |scripts| - 1;
      ChainPrefix(c, e, scripts, rows, outs);
      CompletedExactly(c, e, scripts[..n], rows[..n + 1], outs[..n]);
      assert outs[n] == RunOf(c, e, scripts[n], rows[n]) && rows[..n + 1][n] == rows[n] && rows[..n + 1][0] == rows[0];
      assert Runnable(c, scripts[n], rows[n]);
      RunCompletesOnce(c, e, scripts[n], rows[n]);
      LostIff(c, e, scripts[n], rows[n]);
      RunKeepsBooks(c, e, scripts[n], rows[n]);
    }
  }

  /** So it is announced at most once exactly when no run loses it, or one does and
      no later run has come to tell of it. */
  lemma {:induction false} CompletedOnceIff(c: AuditConfig, e: EngineConfig, scripts: seq<Script>, rows: seq<Row>, outs: seq<Outcome>)
    requires IsChain(c, e, scripts, rows, outs)
    ensures AllCompletions(outs) <= 1 <==>
            Losses(c, e, scripts, rows) == 0 || (Losses(c, e, scripts, rows) == 1 && !Done(c, rows[|scripts|]))
  {
    hide RunOf, RowOk, Done, Losses, AllCompletions;
    CompletedExactly(c, e, scripts, rows, outs);
  }

  /** When every run either reaches its tail or never gets past the probe,
      `completed` is announced at most once, and never by an audit that began
      complete. */
  lemma {:induction false} CompletedAtMostOnce(c: AuditConfig, e: EngineConfig, scripts: seq<Script>, rows: seq<Row>, outs: seq<Outcome>)
    requires IsChain(c, e, scripts, rows, outs)
    requires forall i | 0 <= i < |outs| :: outs[i].ending.Finished? || outs[i].announces == []
    ensures AllCompletions(outs) <= if Done(c, rows[0]) then 0 else 1
  {
    hide RunOf, RowOk, Done, Completions, Announceable;
    CompletedExactly(c, e, scripts, rows, outs);
    NothingLost(c, e, scripts, rows, outs);
  }

  lemma {:induction false} NothingLost(c: AuditConfig, e: EngineConfig, scripts: seq<Script>, rows: seq<Row>, outs: seq<Outcome>)
    requires IsChain(c, e, scripts, rows, outs)
    requires forall i | 0 <= i < |outs| :: outs[i].ending.Finished? || outs[i].announces == []
    ensures Losses(c, e, scripts, rows) == 0
    decreases |scripts|
  {
    hide RunOf, RowOk, Done, RunLoses;
    if scripts != [] {
      var n := |scripts| - 1;
      ChainPrefix(c, e, scripts, rows, outs);
      CompletedExactly(c, e, scripts[..n], rows[..n + 1], outs[..n]);
      NothingLost(c, e, scripts[..n], rows[..n + 1], outs[..n]);
      assert outs[n] == RunOf(c, e, scripts[n], rows[n]) && rows[..n + 1][n] == rows[n];
      RunCompletesOnce(c, e, scripts[n], rows[n]);
      LostIff(c, e, scripts[n], rows[n]);
    }
  }

  /** Across finished runs the tracker sees `left` fall without a break: no
      announce of a later run shows more left than one of an earlier run. */
  lemma {:induction false} LeftFallsAcrossRuns(
    c: AuditConfig, e: EngineConfig, scripts: seq<Script>, rows: seq<Row>, outs: seq<Outcome>, i: nat, j: nat)
    requires IsChain(c, e, scripts, rows, outs) && i < j < |outs|
    requires forall k | 0 <= k < |outs| :: outs[k].ending.Finished? || outs[k].announces == []
    ensures forall a, b | a in outs[i].announces && b in outs[j].announces ::
              b.state.left <= a.state.left && a.state.downloaded <= b.state.downloaded
  {
    hide RunOf, RowOk, Start, Chosen;
    RowsFall(c, e, scripts, rows, outs, i + 1, j);
    RowSound(c, e, scripts, rows, outs, i);
    RowSound(c, e, scripts, rows, outs, j);
    RunKeepsBooks(c, e, scripts[i], rows[i]);
    RunKeepsBooks(c, e, scripts[j], rows[j]);
    assert outs[i].row == rows[i + 1] && outs[i] == RunOf(c, e, scripts[i], rows[i]);
    assert outs[j] == RunOf(c, e, scripts[j], rows[j]);
  }

  lemma {:induction false} RowSound(
    c: AuditConfig, e: EngineConfig, scripts: seq<Script>, rows: seq<Row>, outs: seq<Outcome>, i: nat)
    requires IsChain(c, e, scripts, rows, outs) && i <= |outs|
    ensures RowOk(c, rows[i])
    ensures i < |outs| ==> Runnable(c, scripts[i], rows[i]) && outs[i] == RunOf(c, e, scripts[i], rows[i])
  {
    hide RunOf, RowOk, Start, Announceable, Chosen;
    if i > 0 {
      RowSound(c, e, scripts, rows, outs, i - 1);
      RunKeepsBooks(c, e, scripts[i - 1], rows[i - 1]);
      assert outs[i - 1] == RunOf(c, e, scripts[i - 1], rows[i - 1]);
    }
    assert i < |outs| ==> outs[i] == RunOf(c, e, scripts[i], rows[i]);
  }

  lemma {:induction false} RowsFall(
    c: AuditConfig, e: EngineConfig, scripts: seq<Script>, rows: seq<Row>, outs: seq<Outcome>, i: nat, j: nat)
    requires IsChain(c, e, scripts, rows, outs) && i <= j <= |outs|
    ensures Start(c, rows[j]).state.left <= Start(c, rows[i]).state.left
    decreases j
  {
    hide RunOf, RowOk, Start, Announceable, Chosen;
    if i < j {
      RowsFall(c, e, scripts, rows, outs, i, j - 1);
      RowSound(c, e, scripts, rows, outs, j - 1);
      RunKeepsBooks(c, e, scripts[j - 1], rows[j - 1]);
      assert outs[j - 1].row == rows[j];
    }
  }

  /** Once anything is saved the audit keeps its identity: every later run
      announces under the one that first saved, crashes included. */
  lemma {:induction false} OneIdentity(
    c: AuditConfig, e: EngineConfig, scripts: seq<Script>, rows: seq<Row>, outs: seq<Outcome>, i: nat, j: nat)
    requires IsChain(c, e, scripts, rows, outs) && i <= j < |outs| && Load(rows[i]).Some?
    ensures Load(rows[j]).Some?
    ensures Chosen(Load(rows[j]), scripts[j].identity) == Chosen(Load(rows[i]), scripts[i].identity)
    ensures forall a | a in outs[j].announces :: a.identity == Chosen(Load(rows[i]), scripts[i].identity)
    decreases j
  {
    hide RunOf, Start, Load, Sound;
    RowSound(c, e, scripts, rows, outs, j);
    RunKeepsBooks(c, e, scripts[j], rows[j]);
    if i < j {
      OneIdentity(c, e, scripts, rows, outs, i, j - 1);
      RowSound(c, e, scripts, rows, outs, j - 1);
      RunKeepsBooks(c, e, scripts[j - 1], rows[j - 1]);
      assert outs[j - 1].row == rows[j];
    }
  }

  // ---------- The upload counter ----------

  /** Every tick of the loop leaves the upload counter within u64. */
  predicate Fits(c: AuditConfig, e: EngineConfig, id: Identity, l: Live, turns: seq<Turn>)
    decreases |turns|
  {
    turns == [] || turns[0].Cancel?
    || (&& l.state.uploaded + UploadedBy(l.state, l.phase, c, e, turns[0].moment) <= USIZE_MAX
        && var t := AfterSecond(c, e, id, l, turns[0]);
           Dies(turns[0]) || GoalStops(c, t) || Fits(c, e, id, t, turns[1..]))
  }

  /** The announced upload counters, each at least the one before, none past `now`. */
  ghost predicate Rising(announces: seq<Announce>, now: PeerState) {
    && (forall i, j | 0 <= i < j < |announces| :: announces[i].state.uploaded <= announces[j].state.uploaded)
    && (forall i | 0 <= i < |announces| :: announces[i].state.uploaded <= now.uploaded)
  }

  /** Memory and row have climbed from where the run began, the row behind. */
  ghost predicate Climbs(c: AuditConfig, first: Row, l: Live) {
    var bottom := Start(c, first).state.uploaded;
    && Rising(l.announces, l.state) && (forall i | 0 <= i < |l.announces| :: bottom <= l.announces[i].state.uploaded)
    && bottom <= Start(c, l.row).state.uploaded <= l.state.uploaded
  }

  lemma {:induction false} SentClimbs(c: AuditConfig, id: Identity, first: Row, l: Live, event: AnnounceEvent, reply: Reply)
    requires Climbs(c, first, l) && Conserved(l.state, c) && c.torrentSize > 0 && |id.peerId| == INFO_HASH_LEN
    ensures Climbs(c, first, Sent(l, id, event, reply))
  {
    hide Saved, Start, Conserved;
    var t := l.(announces := l.announces + [Announce(event, id, l.state)]);
    SavedStart(c, id, t);
  }

  lemma {:induction false} SecondClimbs(c: AuditConfig, e: EngineConfig, id: Identity, first: Row, l: Live, turn: Turn)
    requires Climbs(c, first, l) && Conserved(l.state, c) && c.torrentSize > 0 && |id.peerId| == INFO_HASH_LEN
    requires turn.Second? && l.state.uploaded + UploadedBy(l.state, l.phase, c, e, turn.moment) <= USIZE_MAX
    ensures Climbs(c, first, AfterSecond(c, e, id, l, turn)) && Conserved(AfterSecond(c, e, id, l, turn).state, c)
  {
    hide Ticked, Saved, UploadedBy, Conserved, Start, Sent;
    TickConserves(l.state, l.phase, c, e, turn.moment);
    var ticked := l.(state := Ticked(l.state, l.phase, c, e, turn.moment));
    SavedStart(c, id, ticked);
    var noted := if turn.statDue then ticked.(row := Saved(ticked, id)) else ticked;
    assert Climbs(c, first, noted);
    if turn.announceDue {
      var done := noted.(phase := Seed, completedSent := true);
      SentClimbs(c, id, first, noted, NoEvent, turn.reply);
      SentClimbs(c, id, first, done, Completed, turn.reply);
      SentState(noted, id, NoEvent, turn.reply);
      SentState(done, id, Completed, turn.reply);
    }
  }

  /** While the counter fits, neither the announced uploads nor the saved ones
      ever fall through a main loop. */
  lemma {:induction false} UploadsRise(c: AuditConfig, e: EngineConfig, id: Identity, first: Row, l: Live, turns: seq<Turn>)
    requires Climbs(c, first, l) && Conserved(l.state, c) && c.torrentSize > 0 && |id.peerId| == INFO_HASH_LEN
    requires Fits(c, e, id, l, turns)
    ensures var t := Loop(c, e, id, l, turns).0; Climbs(c, first, t) && Conserved(t.state, c)
    decreases |turns|
  {
    hide AfterSecond, Climbs, Conserved, GoalStops, UploadedBy;
    if turns != [] && turns[0].Second? {
      SecondClimbs(c, e, id, first, l, turns[0]);
      var t := AfterSecond(c, e, id, l, turns[0]);
      if !Dies(turns[0]) && !GoalStops(c, t) { UploadsRise(c, e, id, first, t, turns[1..]); }
    }
  }

  /** Every tick of a run's loop, if it has one, fits. */
  predicate RunFits(c: AuditConfig, e: EngineConfig, script: Script, row: Row) {
    var id := Chosen(Load(row), script.identity);
    script.startReply.Died? || Fits(c, e, id, Sent(Begin(c, Load(row), row), id, Started, script.startReply), script.turns)
  }

  /** Through a whole run, `started` and `stopped` included, announced uploads
      never fall, and what is saved neither falls nor passes the last of them. */
  lemma {:induction false} RunUploadsRise(c: AuditConfig, e: EngineConfig, script: Script, row: Row)
    requires Runnable(c, script, row) && RunFits(c, e, script, row)
    ensures var o := RunOf(c, e, script, row); var bottom := Start(c, row).state.uploaded;
            && (forall i, j | 0 <= i < j < |o.announces| :: o.announces[i].state.uploaded <= o.announces[j].state.uploaded)
            && (forall a | a in o.announces :: bottom <= a.state.uploaded)
            && bottom <= Start(c, o.row).state.uploaded
            && (o.ending.Finished? ==> Rising(o.announces, Start(c, o.row).state))
  {
    hide Loop, Saved, Begin, Start, Fits, Attack;
    StartedFirstStoppedLast(c, e, script, row);
    AttackUploadsRise(c, e, script, row);
    AttackKeepsInv(c, e, script, row);
    if script.client.None? { ProbesStart(c, InOrder(script.probes, script.draws)); }
  }

  lemma {:induction false} AttackUploadsRise(c: AuditConfig, e: EngineConfig, script: Script, row: Row)
    requires Runnable(c, script, row) && RunFits(c, e, script, row)
    ensures Climbs(c, row, Attack(c, e, script, row).0)
  {
    hide Loop, Saved, Begin, Start, Fits, Climbs, Conserved, Sent;
    var id := Chosen(Load(row), script.identity);
    AttackKeepsInv(c, e, script, row);
    BeginIsStart(c, row);
    StartClimbs(c, row);
    var begun := Sent(Start(c, row), id, Started, script.startReply);
    SentClimbs(c, id, row, Start(c, row), Started, script.startReply);
    SentState(Start(c, row), id, Started, script.startReply);
    if !script.startReply.Died? {
      UploadsRise(c, e, id, row, begun, script.turns);
      var looped := Loop(c, e, id, begun, script.turns).0;
      SentClimbs(c, id, row, looped, Stopped, script.stopReply);
      SentState(looped, id, Stopped, script.stopReply);
      SaveClimbs(c, id, row, Sent(looped, id, Stopped, script.stopReply));
    }
  }

  lemma {:induction false} StartClimbs(c: AuditConfig, row: Row)
    requires RowOk(c, row)
    ensures Climbs(c, row, Start(c, row)) && Conserved(Start(c, row).state, c)
  {
    StartIsSound(c, row);
  }

  lemma {:induction false} SaveClimbs(c: AuditConfig, id: Identity, first: Row, l: Live)
    requires Climbs(c, first, l) && Conserved(l.state, c) && c.torrentSize > 0 && |id.peerId| == INFO_HASH_LEN
    ensures Climbs(c, first, l.(row := Saved(l, id)))
  {
    hide Saved, Start, Conserved;
    SavedStart(c, id, l);
  }

  ghost predicate AllFit(c: AuditConfig, e: EngineConfig, scripts: seq<Script>, rows: seq<Row>)
    requires |rows| >= |scripts|
  {
    forall k | 0 <= k < |scripts| :: RunFits(c, e, scripts[k], rows[k])
  }

  /** Over any chain of runs whose ticks fit, crashes included, the saved upload
      counter never falls. */
  lemma {:induction false} SavedUploadsRise(
    c: AuditConfig, e: EngineConfig, scripts: seq<Script>, rows: seq<Row>, outs: seq<Outcome>, i: nat, j: nat)
    requires IsChain(c, e, scripts, rows, outs) && i <= j <= |outs|
    requires AllFit(c, e, scripts, rows)
    ensures Start(c, rows[i]).state.uploaded <= Start(c, rows[j]).state.uploaded
    decreases j
  {
    hide RunOf, RowOk, Start, RunFits, Rising;
    if i < j {
      SavedUploadsRise(c, e, scripts, rows, outs, i, j - 1);
      RowSound(c, e, scripts, rows, outs, j - 1);
      RunUploadsRise(c, e, scripts[j - 1], rows[j - 1]);
      assert outs[j - 1].row == rows[j];
    }
  }

  /** Across finished runs whose ticks fit, the tracker never sees `uploaded`
      fall: not within a run, and not from any run to a later one. */
  lemma {:induction false} UploadsRiseAcrossRuns(
    c: AuditConfig, e: EngineConfig, scripts: seq<Script>, rows: seq<Row>, outs: seq<Outcome>, i: nat, j: nat)
    requires IsChain(c, e, scripts, rows, outs) && i < j < |outs|
    requires AllFit(c, e, scripts, rows)
    requires forall k | 0 <= k < |outs| :: outs[k].ending.Finished? || outs[k].announces == []
    ensures forall a, b | a in outs[i].announces && b in outs[j].announces :: a.state.uploaded <= b.state.uploaded
  {
    hide RunOf, RowOk, Start, RunFits;
    SavedUploadsRise(c, e, scripts, rows, outs, i + 1, j);
    RowSound(c, e, scripts, rows, outs, i);
    RowSound(c, e, scripts, rows, outs, j);
    assert outs[i].row == rows[i + 1] && outs[j].announces == outs[j].announces;
    RunUploadsRise(c, e, scripts[i], rows[i]);
    RunUploadsRise(c, e, scripts[j], rows[j]);
  }

  /** The counter falls at a tick exactly when it does not fit. */
  lemma {:induction false} UploadFallsIff(c: AuditConfig, e: EngineConfig, id: Identity, l: Live, turn: Turn)
    requires Conserved(l.state, c) && turn.Second?
    ensures AfterSecond(c, e, id, l, turn).state.uploaded < l.state.uploaded <==> !Fits(c, e, id, l, [turn])
  {
    hide Ticked, Saved, GoalStops, UploadedBy;
    TickConserves(l.state, l.phase, c, e, turn.moment);
  }

  // ---------- A crash can repeat `completed` ----------

  const TINY := AuditConfig(1, LeechThenSeed, 0, false, 0, 1, 0, false, false, 0, 0,
                            GoalConfig(false, Upload, 0, 0, 0, ReachedAction.Stop, 0))
  const ENGINE := EngineConfig(1, 0.5, 0.3)
  const NOW := Moment(0, 0, 0, 0, 0.0, 0.0, 1.0)

  /** Completes in its first second and dies before the response arrives. */
  function Dying(id: Identity): Script {
    Script(Some(0), [], [], id, Answered(false), [Second(NOW, false, true, Died)], Answered(false))
  }

  lemma {:induction false} DyingRun(id: Identity, row: Row)
    requires |id.peerId| == INFO_HASH_LEN && RowOk(TINY, row)
    requires var l := Start(TINY, row); l.state == PeerState(0, 0, 1) && l.phase.Leech? && !l.completedSent
    ensures var o := RunOf(TINY, ENGINE, Dying(id), row);
            Completions(o.announces) == 1 && RowOk(TINY, o.row)
            && var l := Start(TINY, o.row); l.state == PeerState(0, 0, 1) && l.phase.Leech? && !l.completedSent
  {
    hide Load, Saved, Chosen, Start, Inv, RowOk, Completions, Ticked;
    var script, used := Dying(id), Chosen(Load(row), id);
    AttackKeepsInv(TINY, ENGINE, script, row);
    BeginIsStart(TINY, row);
    StartKeepsInv(TINY, used, row);
    SentKeepsInv(TINY, used, row, Start(TINY, row), Started, Unreachable);
    var begun := Sent(Start(TINY, row), used, Started, Unreachable);
    SaveKeepsInv(TINY, used, row, begun);
    LastByte();
    var t := AfterSecond(TINY, ENGINE, used, begun.(row := Saved(begun, used)), script.turns[0]);
    assert t.completedSent && t.row == Saved(begun, used);
    assert Attack(TINY, ENGINE, script, row).0 == t;
    InvTells(TINY, used, row, t);
    LeftToDo(TINY, used, begun);
  }

  lemma {:induction false} InvTells(c: AuditConfig, id: Identity, first: Row, l: Live)
    requires Inv(c, id, first, l) && l.completedSent && !Start(c, first).completedSent
    ensures Completions(l.announces) == 1 && RowOk(c, l.row)
  {
    hide Start, RowOk, Completions;
  }

  lemma {:induction false} LeftToDo(c: AuditConfig, id: Identity, l: Live)
    requires |id.peerId| == INFO_HASH_LEN && !Blank(l.state)
    ensures Start(c, Saved(l, id)).phase == l.phase
  {
    hide Saved, Load;
    LoadsWhatWasSaved(l, id);
  }

  lemma {:induction false} LastByte()
    ensures Ticked(PeerState(0, 0, 1), Leech, TINY, ENGINE, NOW) == PeerState(0, 1, 0)
  {
    hide PerTick, UploadSpeed, DownloadSpeed, Leeching;
    NoSpeed();
    OneBytePerSecond();
  }

  lemma {:induction false} NoSpeed()
    ensures PerTick(Leeching(UploadSpeed(0, TINY, NOW), ENGINE), ENGINE) == 0
  {
    hide Ramp, Jitter;
    assert UploadSpeed(0, TINY, NOW) == 0.0;
    assert Leeching(0.0, ENGINE) == 0.0;
  }

  lemma {:induction false} OneBytePerSecond()
    ensures PerTick(DownloadSpeed(1, NOW), ENGINE) == 1
  {
    assert Jitter(NOW) == 1.0;
    assert DownloadSpeed(1, NOW) == 1.0;
  }

  /** Two runs, each dying right after it announced `completed`, announce it twice. */
  lemma {:induction false} CrashRepeatsCompleted(id: Identity)
    requires |id.peerId| == INFO_HASH_LEN
    ensures var o1 := RunOf(TINY, ENGINE, Dying(id), FRESH_ROW); var o2 := RunOf(TINY, ENGINE, Dying(id), o1.row);
            && IsChain(TINY, ENGINE, [Dying(id), Dying(id)], [FRESH_ROW, o1.row, o2.row], [o1, o2])
            && AllCompletions([o1, o2]) == 2
  {
    hide RunOf;
    assert Start(TINY, FRESH_ROW).state == PeerState(0, 0, 1);
    var o1 := RunOf(TINY, ENGINE, Dying(id), FRESH_ROW);
    DyingRun(id, FRESH_ROW);
    DyingRun(id, o1.row);
    var o2 := RunOf(TINY, ENGINE, Dying(id), o1.row);
    assert [o1, o2][..1] == [o1] && [o1][..0] == [];
    assert AllCompletions([o1]) == 1;
  }
}
