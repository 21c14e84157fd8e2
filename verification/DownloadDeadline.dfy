/**
 The deadline controller on the download side: what a leeching audit in reverse
 mode has downloaded after each turn of its main loop, and when it has its target
 in time. The torrent may be smaller than the target; what is left then runs out
 first.

 Ticks come one a second and without jitter; downloads know no ramp. Any of them
 may be frozen for want of seeders, and uploads go as they please.
 */
module DownloadDeadline {
  import opened Wrappers
  import opened Bytes
  import opened Goal
  import opened Tick
  import opened Peer
  import opened Lifecycle
  import opened LifecycleLaws
  import opened Deadline
  import opened GoalRuns

  /** Reverse mode with a download target, whatever else the goal says. */
  predicate Tracking(c: AuditConfig, e: EngineConfig) {
    && c.goal.enabled && c.goal.direction == DownloadAndUpload
    && c.goal.downloadTarget > 0 && c.goal.targetSecs > 0 && e.tickIntervalSecs == 1
  }

  predicate Frozen(c: AuditConfig, m: Moment) {
    c.freezeOnZeroSeeders && m.seeders == 0
  }

  /** Tick `i` falls within second `from + i`, with no jitter. */
  ghost predicate OnTime(from: nat, turns: seq<Turn>)
    requires AllSurvived(turns)
  {
    forall i {:trigger turns[i]} | 0 <= i < |turns| ::
      Seconds(turns[i].moment.elapsed) == from + i && turns[i].moment.jitterDraw == 0.0
  }

  function FrozenTurns(c: AuditConfig, turns: seq<Turn>): (r: seq<bool>)
    requires AllSurvived(turns)
    ensures |r| == |turns| && forall i | 0 <= i < |r| :: r[i] == Frozen(c, turns[i].moment)
  {
    seq(|turns|, i requires 0 <= i < |turns| => Frozen(c, turns[i].moment))
  }

  function Least(a: int, b: int): int { if a < b then a else b }

  lemma {:induction false} PlainDownload(rate: u64, e: EngineConfig, m: Moment)
    requires e.tickIntervalSecs == 1 && m.jitterDraw == 0.0
    ensures PerTick(DownloadSpeed(rate, m), e) == rate
  {
    assert Jitter(m) == 1.0;
    assert DownloadSpeed(rate, m) == rate as real;
    assert rate as real * e.tickIntervalSecs as real == rate as real;
  }

  /** One leeching tick is one controller step, or has all of the torrent. */
  lemma {:induction false} DownloadTickIsStep(s: PeerState, c: AuditConfig, e: EngineConfig, m: Moment)
    requires Tracking(c, e) && Conserved(s, c) && m.jitterDraw == 0.0
    requires s.downloaded < c.goal.downloadTarget && Seconds(m.elapsed) < c.goal.targetSecs
    ensures var target := c.goal.downloadTarget;
            Ticked(s, Leech, c, e, m).downloaded
            == Least(c.torrentSize,
                     target - Missing(target - s.downloaded, c.goal.targetSecs - Seconds(m.elapsed),
                                      c.maxDownloadBps, Frozen(c, m)))
  {
    hide DivCeil, Seconds, PerTick, DownloadSpeed, UploadedBy, UploadReached;
    var bytes, secs := c.goal.downloadTarget - s.downloaded, c.goal.targetSecs - Seconds(m.elapsed);
    CeilBounds(bytes, secs);
    var rate := Capped(DivCeil(bytes, secs), c.maxDownloadBps);
    assert DownloadRate(s, c, m) == rate;
    PlainDownload(rate, e, m);
  }

  /** The books stay kept, and downloads and phase move as the tick and the
      `completed` announce say. */
  lemma {:induction false} SecondIsSound(c: AuditConfig, e: EngineConfig, id: Identity, l: Live, turn: Turn)
    requires Sound(c, l.state, l.phase, l.completedSent) && turn.Second?
    ensures var t := AfterSecond(c, e, id, l, turn);
            && Sound(c, t.state, t.phase, t.completedSent)
            && t.state == Ticked(l.state, l.phase, c, e, turn.moment)
            && t.state.downloaded >= l.state.downloaded
            && (l.phase.Seed? ==> t.state.downloaded == l.state.downloaded == c.torrentSize)
  {
    hide Ticked, Saved;
    TickConserves(l.state, l.phase, c, e, turn.moment);
  }

  /** A second of an audit that has all of the torrent, or all but `missing` of
      its target. */
  lemma {:induction false} SecondIsStep(
    c: AuditConfig, e: EngineConfig, id: Identity, l: Live, turn: Turn, secs: nat, missing: nat)
    requires Tracking(c, e) && Sound(c, l.state, l.phase, l.completedSent)
    requires turn.Second? && turn.moment.jitterDraw == 0.0
    requires Seconds(turn.moment.elapsed) == c.goal.targetSecs - secs && 0 < secs
    requires 0 < missing <= c.goal.downloadTarget
    requires l.state.downloaded == Least(c.torrentSize, c.goal.downloadTarget - missing)
    ensures AfterSecond(c, e, id, l, turn).state.downloaded
            == Least(c.torrentSize,
                     c.goal.downloadTarget - Missing(missing, secs, c.maxDownloadBps, Frozen(c, turn.moment)))
  {
    hide Ticked, AfterSecond, Missing, Frozen, Seconds;
    SecondIsSound(c, e, id, l, turn);
    if l.phase.Leech? { DownloadTickIsStep(l.state, c, e, turn.moment); }
  }

  lemma {:induction false} MissingOneMore(bytes: nat, secs: nat, cap: nat, choked: seq<bool>, n: nat)
    requires n < |choked| <= secs
    ensures MissingAfter(bytes, secs, cap, choked[..n + 1])
            == Missing(MissingAfter(bytes, secs, cap, choked[..n]), secs - n, cap, choked[n])
    decreases n
  {
    hide Missing;
    if n == 0 {
      assert choked[..1][1..] == [];
    } else {
      var rest := choked[1..];
      MissingOneMore(Missing(bytes, secs, cap, choked[0]), secs - 1, cap, rest, n - 1);
      assert choked[..n + 1][1..] == rest[..n] && choked[..n][1..] == rest[..n - 1];
    }
  }

  /** Bytes the controller still misses after the first `n` turns. */
  function StillMissing(c: AuditConfig, l: Live, from: nat, turns: seq<Turn>, n: nat): (r: nat)
    requires AllSurvived(turns) && from + |turns| <= c.goal.targetSecs && n <= |turns|
    requires l.state.downloaded < c.goal.downloadTarget
    ensures r <= c.goal.downloadTarget - l.state.downloaded
  {
    MissingAfter(c.goal.downloadTarget - l.state.downloaded, c.goal.targetSecs - from,
                 c.maxDownloadBps, FrozenTurns(c, turns)[..n])
  }

  lemma {:induction false} StillMissingStep(c: AuditConfig, l: Live, from: nat, turns: seq<Turn>, n: nat)
    requires AllSurvived(turns) && from + |turns| <= c.goal.targetSecs && 0 < n <= |turns|
    requires l.state.downloaded < c.goal.downloadTarget
    ensures StillMissing(c, l, from, turns, n)
            == Missing(StillMissing(c, l, from, turns, n - 1), c.goal.targetSecs - from - (n - 1),
                       c.maxDownloadBps, Frozen(c, turns[n - 1].moment))
    ensures Missing(0, c.goal.targetSecs - from - (n - 1), c.maxDownloadBps, Frozen(c, turns[n - 1].moment)) == 0
  {
    hide Missing, MissingAfter, Frozen;
    MissingOneMore(c.goal.downloadTarget - l.state.downloaded, c.goal.targetSecs - from, c.maxDownloadBps,
                   FrozenTurns(c, turns), n - 1);
  }

  /** After every turn the audit has downloaded all but what the controller still
      misses, exactly so up to and including the turn nothing is missing any more,
      or all of the torrent if that is less; from then on no less. */
  lemma {:induction false} DownloadsFollow(
    c: AuditConfig, e: EngineConfig, id: Identity, l: Live, from: nat, turns: seq<Turn>, n: nat)
    requires Tracking(c, e) && Sound(c, l.state, l.phase, l.completedSent)
    requires AllSurvived(turns) && OnTime(from, turns) && from + |turns| <= c.goal.targetSecs && n <= |turns|
    requires l.state.downloaded < c.goal.downloadTarget
    ensures var t, missing := After(c, e, id, l, turns, n), StillMissing(c, l, from, turns, n);
            var target := c.goal.downloadTarget;
            && Sound(c, t.state, t.phase, t.completedSent)
            && t.state.downloaded >= Least(c.torrentSize, target - missing)
            && (n == 0 || StillMissing(c, l, from, turns, n - 1) > 0 ==>
                  t.state.downloaded == Least(c.torrentSize, target - missing))
    decreases n
  {
    hide AfterSecond, Missing, StillMissing, Seconds;
    if n == 0 {
      NoneMissingYet(c, l, from, turns);
    } else {
      var missing := StillMissing(c, l, from, turns, n - 1);
      DownloadsFollow(c, e, id, l, from, turns, n - 1);
      var before, turn := After(c, e, id, l, turns, n - 1), turns[n - 1];
      StillMissingStep(c, l, from, turns, n);
      if n > 1 { StillMissingStep(c, l, from, turns, n - 1); }
      SecondIsSound(c, e, id, before, turn);
      if missing > 0 { SecondIsStep(c, e, id, before, turn, c.goal.targetSecs - from - (n - 1), missing); }
    }
  }

  lemma {:induction false} NoneMissingYet(c: AuditConfig, l: Live, from: nat, turns: seq<Turn>)
    requires AllSurvived(turns) && from + |turns| <= c.goal.targetSecs
    requires l.state.downloaded < c.goal.downloadTarget
    ensures StillMissing(c, l, from, turns, 0) == c.goal.downloadTarget - l.state.downloaded
  {
  }

  lemma {:induction false} StillMissingFalls(c: AuditConfig, l: Live, from: nat, turns: seq<Turn>, n: nat, m: nat)
    requires AllSurvived(turns) && from + |turns| <= c.goal.targetSecs && n <= m <= |turns|
    requires l.state.downloaded < c.goal.downloadTarget
    ensures StillMissing(c, l, from, turns, m) <= StillMissing(c, l, from, turns, n)
    decreases m
  {
    hide StillMissing, Missing;
    if n < m {
      StillMissingFalls(c, l, from, turns, n, m - 1);
      StillMissingStep(c, l, from, turns, m);
    }
  }

  /** Nothing is missing after `n` turns exactly when the target is met there, if
      the torrent has as much; and a torrent with less is never enough. */
  lemma {:induction false} MetAfterIff(
    c: AuditConfig, e: EngineConfig, id: Identity, l: Live, from: nat, turns: seq<Turn>, n: nat)
    requires Tracking(c, e) && Sound(c, l.state, l.phase, l.completedSent)
    requires AllSurvived(turns) && OnTime(from, turns) && from + |turns| <= c.goal.targetSecs && n <= |turns|
    requires l.state.downloaded < c.goal.downloadTarget
    ensures var downloaded, missing := After(c, e, id, l, turns, n).state.downloaded, StillMissing(c, l, from, turns, n);
            var target := c.goal.downloadTarget;
            && downloaded <= c.torrentSize
            && (downloaded >= target <==> missing == 0 && target <= c.torrentSize)
            && (missing > 0 || target > c.torrentSize ==> downloaded == Least(c.torrentSize, target - missing))
  {
    hide After, StillMissing;
    DownloadsFollow(c, e, id, l, from, turns, n);
    NoneMissingYet(c, l, from, turns);
    if n > 0 { StillMissingFalls(c, l, from, turns, n - 1, n); }
  }

  /** Uploads are not what keeps the goal from being met. */
  ghost predicate UploadsMet(c: AuditConfig, e: EngineConfig, id: Identity, l: Live, turns: seq<Turn>) {
    forall n: nat | n <= |turns| :: After(c, e, id, l, turns, n).state.uploaded >= c.goal.uploadTarget
  }

  /** What the loop comes to on the download side, and, when reaching the download
      target is what ends it, that it is left exactly then, on the target. */
  lemma {:induction false} LoopDownloads(
    c: AuditConfig, e: EngineConfig, id: Identity, l: Live, from: nat, turns: seq<Turn>)
    requires Tracking(c, e) && Sound(c, l.state, l.phase, l.completedSent)
    requires AllSurvived(turns) && OnTime(from, turns) && from + |turns| <= c.goal.targetSecs
    requires l.state.downloaded < c.goal.downloadTarget
    ensures var (t, left) := Loop(c, e, id, l, turns);
            var downloaded, target, missing := t.state.downloaded, c.goal.downloadTarget, StillMissing(c, l, from, turns, |turns|);
            && (missing > 0 || target > c.torrentSize ==> !left && downloaded == Least(c.torrentSize, target - missing))
            && (downloaded >= target <==> missing == 0 && target <= c.torrentSize)
            && (c.goal.reachedAction == Stop && UploadsMet(c, e, id, l, turns) ==>
                  downloaded <= target && (left <==> downloaded == target))
  {
    hide After, StillMissing, Loop, OnTime, Sound, AfterSecond;
    var n := LeavesLoopIff(c, e, id, l, turns);
    NoneMissingYet(c, l, from, turns);
    if n > 0 { assert Survived(turns[n - 1]); }
    if Loop(c, e, id, l, turns).1 {
      assert Survived(turns[n]);
      MetAfterIff(c, e, id, l, from, turns, n + 1);
      MetAfterIff(c, e, id, l, from, turns, n);
      StillMissingFalls(c, l, from, turns, n + 1, |turns|);
      DownloadsFollow(c, e, id, l, from, turns, n + 1);
    } else {
      assert n == |turns|;
      MetAfterIff(c, e, id, l, from, turns, n);
    }
  }

  /** Whatever turns are frozen, without a cap the download target is met by the
      deadline if and only if the torrent has as much and the last turn before it
      is free, or as many turns are free as bytes are due. With a smaller torrent
      what is left runs out first, and all of it is downloaded exactly when the
      controller gets that far. */
  lemma {:induction false} DownloadMeetsDeadlineIff(
    c: AuditConfig, e: EngineConfig, id: Identity, l: Live, from: nat, turns: seq<Turn>)
    requires Tracking(c, e) && Sound(c, l.state, l.phase, l.completedSent) && c.maxDownloadBps == 0
    requires AllSurvived(turns) && OnTime(from, turns) && from + |turns| == c.goal.targetSecs && turns != []
    requires l.state.downloaded < c.goal.downloadTarget
    ensures var (t, left) := Loop(c, e, id, l, turns);
            var downloaded, target, last := t.state.downloaded, c.goal.downloadTarget, turns[|turns| - 1].moment;
            var inTime := || !(c.freezeOnZeroSeeders && last.seeders == 0)
                          || Free(FrozenTurns(c, turns)) >= target - l.state.downloaded;
            && (downloaded >= target <==> inTime && target <= c.torrentSize)
            && (target > c.torrentSize && inTime ==> downloaded == c.torrentSize)
            && (c.goal.reachedAction == Stop && UploadsMet(c, e, id, l, turns) ==>
                  downloaded <= target && (left <==> inTime && target <= c.torrentSize))
  {
    hide Loop, OnTime, Sound, UploadsMet, MissingAfter;
    LoopDownloads(c, e, id, l, from, turns);
    var frozen := FrozenTurns(c, turns);
    LastTickDecides(c.goal.downloadTarget - l.state.downloaded, |turns|, frozen);
    assert frozen[..|turns|] == frozen;
  }

  /** Under a cap: what it could never carry shrinks by the cap in each free turn;
      otherwise the target is met exactly when the cap could carry, after each
      turn, what the uncapped controller would still miss. */
  lemma {:induction false} DownloadCapDecides(
    c: AuditConfig, e: EngineConfig, id: Identity, l: Live, from: nat, turns: seq<Turn>)
    requires Tracking(c, e) && Sound(c, l.state, l.phase, l.completedSent) && c.maxDownloadBps > 0
    requires AllSurvived(turns) && OnTime(from, turns) && from + |turns| == c.goal.targetSecs
    requires l.state.downloaded < c.goal.downloadTarget
    ensures var (t, left) := Loop(c, e, id, l, turns);
            var downloaded, target, cap, n := t.state.downloaded, c.goal.downloadTarget, c.maxDownloadBps, |turns|;
            var bytes, frozen := target - l.state.downloaded, FrozenTurns(c, turns);
            var inTime := forall j | 0 <= j <= n :: MissingAfter(bytes, n, 0, frozen[..j]) <= cap * (n - j);
            && (bytes > cap * n ==> downloaded == Least(c.torrentSize, l.state.downloaded + cap * Free(frozen)) < target)
            && (downloaded >= target <==> inTime && target <= c.torrentSize)
            && (target > c.torrentSize && inTime ==> downloaded == c.torrentSize)
            && (c.goal.reachedAction == Stop && UploadsMet(c, e, id, l, turns) ==>
                  downloaded <= target && (left <==> inTime && target <= c.torrentSize))
  {
    hide Loop, OnTime, Sound, UploadsMet, MissingAfter;
    LoopDownloads(c, e, id, l, from, turns);
    var bytes, cap, frozen := c.goal.downloadTarget - l.state.downloaded, c.maxDownloadBps, FrozenTurns(c, turns);
    assert frozen[..|turns|] == frozen;
    CapMeetsIff(bytes, |turns|, cap, frozen);
    if bytes > cap * |turns| {
      CapBinds(bytes, |turns|, cap, frozen);
      Times(cap, Free(frozen), |turns|);
    }
  }
}
