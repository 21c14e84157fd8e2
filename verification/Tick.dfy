/**
 One engine tick: how the announced counters grow in a second.

 Speeds are real numbers here; casts to u64 truncate and saturate as Rust's do,
 and additions wrap as they do in a release build.
 */
module Tick {
  import opened Bytes
  import opened Goal
  import opened Peer

  datatype Mode = UploadOnly | LeechThenSeed

  datatype Phase = Leech | Seed

  /** The part of an audit's configuration a tick reads. */
  datatype AuditConfig = AuditConfig(
    torrentSize: u64, mode: Mode, startDownloadPct: byte, dynamic: bool,
    uploadBps: u64, downloadBps: u64, rampUpSecs: u64,
    freezeOnZeroLeechers: bool, freezeOnZeroSeeders: bool,
    maxUploadBps: u64, maxDownloadBps: u64, goal: GoalConfig)

  datatype EngineConfig = EngineConfig(tickIntervalSecs: u64, leechUploadFactor: real, burstChokeProbability: real)

  /** What a tick finds: the swarm, the time, and its two random draws. */
  datatype Moment = Moment(
    leechers: i64, seeders: i64, dynamicTargetBps: u64, dynamicDownloadBps: u64,
    elapsed: real, jitterDraw: real, burstRoll: real)

  function ToU64(x: real): u64 {
    if x < 0.0 then 0 else if x.Floor > USIZE_MAX then USIZE_MAX else x.Floor
  }

  function WrapAdd(a: u64, b: u64): (r: u64)
    ensures r >= a <==> a + b <= USIZE_MAX
    ensures a + b <= USIZE_MAX ==> r == a + b
  {
    (a + b) % U64_MODULUS
  }

  function Seconds(elapsed: real): nat {
    if elapsed < 0.0 then 0 else elapsed.Floor
  }

  /** A hard cap of zero means none. */
  function Capped(bps: u64, cap: u64): u64 {
    if cap > 0 && cap < bps then cap else bps
  }

  /** The upload rate after the goal's override. */
  function UploadRate(s: PeerState, c: AuditConfig, m: Moment): u64 {
    var base := if c.dynamic then m.dynamicTargetBps else c.uploadBps;
    if !c.goal.enabled then base
    else if Reached(s, c.goal) then
      if c.goal.reachedAction.ContinueCustom? then Capped(c.goal.reachedBps, c.maxUploadBps) else base
    else if UploadTarget(c.goal) > 0 && s.uploaded < UploadTarget(c.goal) then
      var required := RequiredBps(UploadTarget(c.goal), s.uploaded, c.goal.targetSecs, Seconds(m.elapsed));
      if required > 0 then Capped(required, c.maxUploadBps) else base
    else base
  }

  /** The download rate after the goal's override. */
  function DownloadRate(s: PeerState, c: AuditConfig, m: Moment): u64 {
    var base := if c.dynamic then m.dynamicDownloadBps else c.downloadBps;
    if !c.goal.enabled || Reached(s, c.goal) then base
    else if DownloadTarget(c.goal) > 0 && s.downloaded < DownloadTarget(c.goal) then
      var required := RequiredBps(DownloadTarget(c.goal), s.downloaded, c.goal.targetSecs, Seconds(m.elapsed));
      if required > 0 then Capped(required, c.maxDownloadBps) else base
    else base
  }

  /** Linear from nothing to the full rate over the ramp. */
  function Ramp(c: AuditConfig, elapsed: real): real {
    if c.rampUpSecs == 0 then 1.0
    else
      var f := elapsed / c.rampUpSecs as real;
      if f < 0.0 then 0.0 else if f > 1.0 then 1.0 else f
  }

  function Jitter(m: Moment): real { 1.0 + m.jitterDraw / 100.0 }

  predicate UploadFrozen(c: AuditConfig, m: Moment) { c.freezeOnZeroLeechers && m.leechers == 0 }

  predicate DownloadFrozen(c: AuditConfig, m: Moment) { c.freezeOnZeroSeeders && m.seeders == 0 }

  /** A seeding tick that sends nothing. */
  predicate Choked(c: AuditConfig, e: EngineConfig, m: Moment) {
    UploadFrozen(c, m) || m.burstRoll < e.burstChokeProbability
  }

  /** Bytes per second at a base rate, after ramp and jitter. */
  function UploadSpeed(rate: u64, c: AuditConfig, m: Moment): real {
    rate as real * Ramp(c, m.elapsed) * Jitter(m)
  }

  function DownloadSpeed(rate: u64, m: Moment): real { rate as real * Jitter(m) }

  function Leeching(speed: real, e: EngineConfig): real { speed * e.leechUploadFactor }

  /** What a speed amounts to over one tick. */
  function PerTick(speed: real, e: EngineConfig): u64 { ToU64(speed * e.tickIntervalSecs as real) }

  /** Bytes a tick adds to `uploaded`. */
  function UploadedBy(s: PeerState, phase: Phase, c: AuditConfig, e: EngineConfig, m: Moment): u64 {
    var speed := UploadSpeed(UploadRate(s, c, m), c, m);
    match phase
    case Leech => if DownloadFrozen(c, m) && UploadFrozen(c, m) then 0 else PerTick(Leeching(speed, e), e)
    case Seed => if Choked(c, e, m) then 0 else PerTick(speed, e)
  }

  /** Bytes a tick downloads. */
  function DownloadedBy(s: PeerState, phase: Phase, c: AuditConfig, e: EngineConfig, m: Moment): u64 {
    if phase.Seed? || DownloadFrozen(c, m) then 0
    else PerTick(DownloadSpeed(DownloadRate(s, c, m), m), e)
  }

  /** The counters after a tick. */
  function Ticked(s: PeerState, phase: Phase, c: AuditConfig, e: EngineConfig, m: Moment): PeerState {
    var uploaded := WrapAdd(s.uploaded, UploadedBy(s, phase, c, e, m));
    var got := DownloadedBy(s, phase, c, e, m);
    if phase.Seed? || DownloadFrozen(c, m) then s.(uploaded := uploaded)
    else if got >= s.left then PeerState(uploaded, c.torrentSize, 0)
    else PeerState(uploaded, WrapAdd(s.downloaded, got), s.left - got)
  }

  /** The speeds a tick reports: upload, then download. */
  datatype Speeds = Speeds(uploadBps: u64, downloadBps: u64)

  function Reported(s: PeerState, phase: Phase, c: AuditConfig, e: EngineConfig, m: Moment): Speeds {
    var speed := UploadSpeed(UploadRate(s, c, m), c, m);
    match phase
    case Leech =>
      Speeds(if DownloadFrozen(c, m) && UploadFrozen(c, m) then 0 else ToU64(Leeching(speed, e)),
             if DownloadFrozen(c, m) then 0 else ToU64(DownloadSpeed(DownloadRate(s, c, m), m)))
    case Seed => Speeds(if Choked(c, e, m) then 0 else ToU64(speed), 0)
  }

  /** With one-second ticks the reported speeds are the bytes the tick adds. */
  lemma {:induction false} SpeedsAreBytes(s: PeerState, phase: Phase, c: AuditConfig, e: EngineConfig, m: Moment)
    requires e.tickIntervalSecs == 1
    ensures Reported(s, phase, c, e, m) == Speeds(UploadedBy(s, phase, c, e, m), DownloadedBy(s, phase, c, e, m))
  {
    hide UploadSpeed, DownloadSpeed, Leeching, UploadRate, DownloadRate, ToU64;
    forall x: real ensures PerTick(x, e) == ToU64(x) { OneSecond(x, e); }
  }

  lemma {:induction false} OneSecond(x: real, e: EngineConfig)
    requires e.tickIntervalSecs == 1
    ensures PerTick(x, e) == ToU64(x)
  {
    assert x * e.tickIntervalSecs as real == x;
  }

  class Counters {
    var state: PeerState

    constructor (state: PeerState)
      ensures this.state == state
    {
      this.state := state;
    }

    method Tick(phase: Phase, c: AuditConfig, e: EngineConfig, m: Moment) returns (speeds: Speeds)
      modifies this
      ensures state == Ticked(old(state), phase, c, e, m)
      ensures speeds == Reported(old(state), phase, c, e, m)
    {
      hide UploadSpeed, DownloadSpeed, Leeching, PerTick, UploadRate, DownloadRate, ToU64;
      speeds := Speeds(0, 0);
      var baseUpload, baseDownload := OverriddenRates(c, m);
      var speed := UploadSpeed(baseUpload, c, m);
      match phase {
        case Leech =>
          var up := PerTick(Leeching(speed, e), e);
          if DownloadFrozen(c, m) {
            if !UploadFrozen(c, m) {
              Upload(up);
              speeds := speeds.(uploadBps := ToU64(Leeching(speed, e)));
            }
            return;
          }
          var got := PerTick(DownloadSpeed(baseDownload, m), e);
          state := state.(downloaded := WrapAdd(state.downloaded, got), left := SaturatingSub(state.left, got));
          speeds := speeds.(downloadBps := ToU64(DownloadSpeed(baseDownload, m)));
          if state.left == 0 { state := state.(downloaded := c.torrentSize); }
          Upload(up);
          speeds := speeds.(uploadBps := ToU64(Leeching(speed, e)));
        case Seed =>
          if UploadFrozen(c, m) { return; }
          if m.burstRoll < e.burstChokeProbability { return; }
          Upload(PerTick(speed, e));
          speeds := speeds.(uploadBps := ToU64(speed));
      }
    }

    method Upload(n: u64)
      modifies this
      ensures state == old(state).(uploaded := WrapAdd(old(state).uploaded, n))
    {
      state := state.(uploaded := WrapAdd(state.uploaded, n));
    }

    /** The base speeds after the goal's live feedback. */
    method OverriddenRates(c: AuditConfig, m: Moment) returns (up: u64, down: u64)
      ensures up == UploadRate(state, c, m) && down == DownloadRate(state, c, m)
    {
      hide Reached, RequiredBps;
      up := if c.dynamic then m.dynamicTargetBps else c.uploadBps;
      down := if c.dynamic then m.dynamicDownloadBps else c.downloadBps;
      if c.goal.enabled {
        var upTarget, downTarget := UploadTarget(c.goal), DownloadTarget(c.goal);
        if Reached(state, c.goal) {
          if c.goal.reachedAction == ContinueCustom { up := Capped(c.goal.reachedBps, c.maxUploadBps); }
        } else {
          if upTarget > 0 && state.uploaded < upTarget {
            var required := RequiredBps(upTarget, state.uploaded, c.goal.targetSecs, Seconds(m.elapsed));
            if required > 0 { up := Capped(required, c.maxUploadBps); }
          }
          if downTarget > 0 && state.downloaded < downTarget {
            var required := RequiredBps(downTarget, state.downloaded, c.goal.targetSecs, Seconds(m.elapsed));
            if required > 0 { down := Capped(required, c.maxDownloadBps); }
          }
        }
      }
    }
  }

  // ---------- Conservation ----------

  /** Every byte of the torrent is either downloaded or left. */
  predicate Conserved(s: PeerState, c: AuditConfig) {
    s.downloaded + s.left == c.torrentSize
  }

  /** A tick keeps the books for any speeds, draws and swarm: `left` never rises,
      `downloaded` never falls, and neither moves while seeding. `uploaded` falls
      exactly when it would pass the largest u64. */
  lemma {:induction false} TickConserves(s: PeerState, phase: Phase, c: AuditConfig, e: EngineConfig, m: Moment)
    requires Conserved(s, c)
    ensures var t := Ticked(s, phase, c, e, m);
            && Conserved(t, c) && t.left <= s.left && t.downloaded >= s.downloaded
            && (phase.Seed? || DownloadFrozen(c, m) ==> t.left == s.left && t.downloaded == s.downloaded)
            && (t.uploaded >= s.uploaded <==> s.uploaded + UploadedBy(s, phase, c, e, m) <= USIZE_MAX)
  {
    hide PerTick, UploadRate, DownloadRate;
  }

  /** Freezing uploads for want of leechers holds while seeding and while the
      download is frozen too; in any other leeching tick it changes nothing. */
  lemma {:induction false} UploadFreezeHolds(s: PeerState, phase: Phase, c: AuditConfig, e: EngineConfig, m: Moment)
    requires UploadFrozen(c, m)
    ensures UploadedBy(s, phase, c, e, m)
            == if phase.Seed? || DownloadFrozen(c, m) then 0
               else UploadedBy(s, phase, c.(freezeOnZeroLeechers := false), e, m)
  {
    hide PerTick, Reached, RequiredBps, UploadSpeed;
    var open := c.(freezeOnZeroLeechers := false);
    assert UploadRate(s, open, m) == UploadRate(s, c, m);
    SameSpeed(UploadRate(s, c, m), c, open, m);
  }

  lemma {:induction false} SameSpeed(rate: u64, c: AuditConfig, d: AuditConfig, m: Moment)
    requires c.rampUpSecs == d.rampUpSecs
    ensures UploadSpeed(rate, c, m) == UploadSpeed(rate, d, m)
  {
  }

  /** So a leeching audit told to freeze can upload although nobody leeches. */
  lemma {:induction false} LeechUploadsToNobody(c: AuditConfig, e: EngineConfig, m: Moment)
    requires UploadFrozen(c, m) && !c.dynamic && !c.goal.enabled && c.uploadBps == 2 && c.rampUpSecs == 0
    requires e == EngineConfig(1, 0.5, 0.3) && m.jitterDraw == 0.0 && m.seeders == 1
    ensures UploadedBy(PeerState(0, 0, c.torrentSize), Leech, c, e, m) == 1
  {
    hide PerTick, Leeching;
    assert Ramp(c, m.elapsed) == 1.0 && Jitter(m) == 1.0;
    assert UploadSpeed(2, c, m) == 2.0;
    HalfOfTwo(e);
  }

  lemma {:induction false} HalfOfTwo(e: EngineConfig)
    requires e == EngineConfig(1, 0.5, 0.3)
    ensures PerTick(Leeching(2.0, e), e) == 1
  {
    assert Leeching(2.0, e) == 1.0;
  }

  // ---------- The state an audit starts with ----------

  /** `initial_download_state`: downloaded and left. */
  function InitialDownload(torrentSize: u64, startDownloadPct: byte): (r: (u64, u64))
    ensures r.0 + r.1 == torrentSize
  {
    var pct := if startDownloadPct > 100 then 100 else startDownloadPct;
    InitialDownloadBound(torrentSize, pct);
    var downloaded := (torrentSize * pct) % U64_MODULUS / 100;
    (downloaded, SaturatingSub(torrentSize, downloaded))
  }

  /** Even a product that wraps gives no more than the torrent, so nothing is lost. */
  lemma {:induction false} InitialDownloadBound(torrentSize: u64, pct: nat)
    requires pct <= 100
    ensures (torrentSize * pct) % U64_MODULUS / 100 <= torrentSize
  {
    Times(torrentSize, pct, 100);
    WrapsDown(torrentSize * pct);
  }

  lemma {:induction false} WrapsDown(n: nat)
    ensures n <= USIZE_MAX ==> n % U64_MODULUS == n
    ensures n > USIZE_MAX ==> n % U64_MODULUS <= n - U64_MODULUS
  {
  }

  /** The share is the configured percentage exactly when the product fits u64. */
  lemma {:induction false} InitialShareIff(torrentSize: u64, startDownloadPct: byte)
    ensures var pct := if startDownloadPct > 100 then 100 else startDownloadPct;
            InitialDownload(torrentSize, startDownloadPct).0 == torrentSize * pct / 100
            <==> torrentSize * pct <= USIZE_MAX
  {
    var pct := if startDownloadPct > 100 then 100 else startDownloadPct;
    WrapsDown(torrentSize * pct);
  }
}
