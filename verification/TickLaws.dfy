/**
 How many bytes a tick is worth, without its roundings and casts; and what an
 audit sends once no target drives it.
 */
module TickLaws {
  import opened Bytes
  import opened Goal
  import opened Tick
  import opened Peer
  import opened Deadline

  // ---------- Casts ----------

  /** A cast to u64 gives the largest u64 that is not above the number, or zero. */
  lemma {:induction false} CastIs(x: real, n: u64)
    ensures n <= ToU64(x) <==> n == 0 || n as real <= x
  {
  }

  lemma {:induction false} SecondsAre(x: real, n: nat)
    ensures n <= Seconds(x) <==> n == 0 || n as real <= x
  {
  }

  // ---------- The bytes of a tick ----------

  /** The ramp's length, and how much of it has passed; without a ramp, all of it. */
  function RampLength(c: AuditConfig): (r: real)
    ensures r > 0.0
  {
    if c.rampUpSecs == 0 then 1.0 else c.rampUpSecs as real
  }

  function RampPassed(c: AuditConfig, m: Moment): real {
    if c.rampUpSecs == 0 then 1.0
    else if m.elapsed < 0.0 then 0.0
    else if m.elapsed < c.rampUpSecs as real then m.elapsed
    else c.rampUpSecs as real
  }

  lemma {:induction false} RampIs(c: AuditConfig, m: Moment)
    ensures Ramp(c, m.elapsed) * RampLength(c) == RampPassed(c, m)
  {
    if c.rampUpSecs > 0 {
      var whole := c.rampUpSecs as real;
      var f := m.elapsed / whole;
      assert f * whole == m.elapsed;
      Product(f, whole);
      Product(f - 1.0, whole);
    }
  }

  lemma {:induction false} Product(a: real, b: real)
    requires b > 0.0
    ensures a * b < 0.0 <==> a < 0.0
    ensures a * b > 0.0 <==> a > 0.0
  {
  }

  /** A rate times the part of the ramp that has passed and the jitter in percent;
      it is spread over the ramp's length and a hundred. */
  function Worth(rate: u64, c: AuditConfig, m: Moment): real {
    rate as real * RampPassed(c, m) * (100.0 + m.jitterDraw)
  }

  function Spread(c: AuditConfig): (r: real)
    ensures r > 0.0
  {
    RampLength(c) * 100.0
  }

  /** `n` bytes fit what is worth `worth` a second over `secs` seconds. */
  predicate Fits(n: u64, spread: real, worth: real, secs: real) {
    n as real * spread <= worth * secs
  }

  lemma {:induction false} UploadSpeedIs(rate: u64, c: AuditConfig, m: Moment)
    ensures UploadSpeed(rate, c, m) * Spread(c) == Worth(rate, c, m)
  {
    hide Ramp, RampLength, RampPassed;
    var r, f, whole, j := rate as real, Ramp(c, m.elapsed), RampLength(c), Jitter(m);
    RampIs(c, m);
    assert j * 100.0 == 100.0 + m.jitterDraw;
    Regroup(r, f, j, whole);
  }

  lemma {:induction false} Regroup(r: real, f: real, j: real, whole: real)
    ensures r * f * j * (whole * 100.0) == r * (f * whole) * (j * 100.0)
  {
  }

  lemma {:induction false} PerTickFits(speed: real, e: EngineConfig, n: u64, spread: real, worth: real)
    requires n > 0 && spread > 0.0 && speed * spread == worth
    ensures n <= PerTick(speed, e) <==> Fits(n, spread, worth, e.tickIntervalSecs as real)
  {
    hide Fits;
    CastFits(speed, e.tickIntervalSecs as real, n, spread, worth);
    assert PerTick(speed, e) == ToU64(speed * e.tickIntervalSecs as real);
  }

  lemma {:induction false} LeechingFits(speed: real, e: EngineConfig, n: u64, spread: real, worth: real)
    requires n > 0 && spread > 0.0 && speed * spread == worth
    ensures n <= PerTick(Leeching(speed, e), e)
            <==> Fits(n, spread, worth, e.leechUploadFactor * e.tickIntervalSecs as real)
  {
    hide Fits;
    assert speed * e.leechUploadFactor * e.tickIntervalSecs as real == speed * (e.leechUploadFactor * e.tickIntervalSecs as real);
    CastFits(speed, e.leechUploadFactor * e.tickIntervalSecs as real, n, spread, worth);
  }

  lemma {:induction false} CastFits(speed: real, secs: real, n: u64, spread: real, worth: real)
    requires n > 0 && spread > 0.0 && speed * spread == worth
    ensures n <= ToU64(speed * secs) <==> Fits(n, spread, worth, secs)
  {
    hide ToU64;
    var x := speed * secs;
    CastIs(x, n);
    assert x * spread == worth * secs;
    Product(x - n as real, spread);
    assert (x - n as real) * spread == x * spread - n as real * spread;
  }

  /** A free seeding tick uploads as many whole bytes as its rate is worth in the
      tick's seconds. */
  lemma {:induction false} SeedingBytes(s: PeerState, c: AuditConfig, e: EngineConfig, m: Moment, n: u64)
    requires n > 0
    ensures n <= UploadedBy(s, Seed, c, e, m)
            <==> && !(c.freezeOnZeroLeechers && m.leechers == 0) && m.burstRoll >= e.burstChokeProbability
                 && Fits(n, Spread(c), Worth(UploadRate(s, c, m), c, m), e.tickIntervalSecs as real)
  {
    hide UploadRate, UploadSpeed, Spread, Worth, Fits, PerTick;
    var rate := UploadRate(s, c, m);
    UploadSpeedIs(rate, c, m);
    PerTickFits(UploadSpeed(rate, c, m), e, n, Spread(c), Worth(rate, c, m));
  }

  /** A leeching tick uploads the leech factor's share of that, choked or not. */
  lemma {:induction false} LeechingBytes(s: PeerState, c: AuditConfig, e: EngineConfig, m: Moment, n: u64)
    requires n > 0
    ensures n <= UploadedBy(s, Leech, c, e, m)
            <==> && !(c.freezeOnZeroSeeders && m.seeders == 0 && c.freezeOnZeroLeechers && m.leechers == 0)
                 && Fits(n, Spread(c), Worth(UploadRate(s, c, m), c, m), e.leechUploadFactor * e.tickIntervalSecs as real)
  {
    hide UploadRate, UploadSpeed, Spread, Worth, Fits, PerTick, Leeching;
    var rate := UploadRate(s, c, m);
    UploadSpeedIs(rate, c, m);
    LeechingFits(UploadSpeed(rate, c, m), e, n, Spread(c), Worth(rate, c, m));
  }

  function DownloadWorth(rate: u64, m: Moment): real { rate as real * (100.0 + m.jitterDraw) }

  lemma {:induction false} DownloadSpeedIs(rate: u64, m: Moment)
    ensures DownloadSpeed(rate, m) * 100.0 == DownloadWorth(rate, m)
  {
  }

  /** Downloads know no ramp. */
  lemma {:induction false} DownloadingBytes(s: PeerState, c: AuditConfig, e: EngineConfig, m: Moment, n: u64)
    requires n > 0
    ensures n <= DownloadedBy(s, Leech, c, e, m)
            <==> && !(c.freezeOnZeroSeeders && m.seeders == 0)
                 && Fits(n, 100.0, DownloadWorth(DownloadRate(s, c, m), m), e.tickIntervalSecs as real)
  {
    hide DownloadRate, DownloadSpeed, DownloadWorth, PerTick, Fits;
    var rate := DownloadRate(s, c, m);
    DownloadSpeedIs(rate, m);
    PerTickFits(DownloadSpeed(rate, m), e, n, 100.0, DownloadWorth(rate, m));
  }

  // ---------- With no target to drive it ----------

  /** The configured rate holds unless a target is still to be met before a
      deadline still to come. */
  lemma {:induction false} NothingToDrive(s: PeerState, c: AuditConfig, m: Moment)
    requires !(c.goal.enabled && c.goal.reachedAction == ContinueCustom && Reached(s, c.goal))
    ensures !(c.goal.enabled && s.uploaded < c.goal.uploadTarget && Seconds(m.elapsed) < c.goal.targetSecs)
            ==> UploadRate(s, c, m) == if c.dynamic then m.dynamicTargetBps else c.uploadBps
    ensures !(c.goal.enabled && c.goal.direction == DownloadAndUpload && s.downloaded < c.goal.downloadTarget
              && Seconds(m.elapsed) < c.goal.targetSecs)
            ==> DownloadRate(s, c, m) == if c.dynamic then m.dynamicDownloadBps else c.downloadBps
  {
    hide RequiredBps, Seconds, Reached;
    AskedIff(UploadTarget(c.goal), s.uploaded, c.goal.targetSecs, Seconds(m.elapsed), 0);
    AskedIff(DownloadTarget(c.goal), s.downloaded, c.goal.targetSecs, Seconds(m.elapsed), 0);
  }

  /** No goal, or one that has been met and is not to stop the audit. */
  predicate Cruising(s: PeerState, goal: GoalConfig) {
    !goal.enabled || (Reached(s, goal) && goal.reachedAction != Stop)
  }

  /** The rate an audit goes on at: the configured one, or the one for afterwards,
      zero if so configured, under the cap. */
  predicate GoesOnAt(c: AuditConfig, m: Moment, rate: u64) {
    if c.goal.enabled && c.goal.reachedAction == ContinueCustom then
      (rate == c.goal.reachedBps && (c.maxUploadBps == 0 || rate <= c.maxUploadBps))
      || (rate == c.maxUploadBps && 0 < rate <= c.goal.reachedBps)
    else rate == if c.dynamic then m.dynamicTargetBps else c.uploadBps
  }

  ghost predicate GoesOnAtAll(c: AuditConfig, ticks: seq<Moment>, rate: u64) {
    forall i | 0 <= i < |ticks| :: GoesOnAt(c, ticks[i], rate)
  }

  lemma {:induction false} CruisingTick(s: PeerState, c: AuditConfig, e: EngineConfig, m: Moment, rate: u64)
    requires Cruising(s, c.goal) && e.tickIntervalSecs == 1 && GoesOnAt(c, m, rate)
    requires m.jitterDraw == 0.0 && m.elapsed >= c.rampUpSecs as real
    requires s.uploaded + rate <= USIZE_MAX
    ensures Ticked(s, Seed, c, e, m) == s.(uploaded := s.uploaded + if Choked(c, e, m) then 0 else rate)
  {
    hide Reached, Choked, PerTick, UploadSpeed;
    assert UploadRate(s, c, m) == rate;
    FullSpeed(rate, c, e, m);
  }

  lemma {:induction false} StaysReached(s: PeerState, goal: GoalConfig, more: nat)
    requires s.uploaded + more <= USIZE_MAX && Cruising(s, goal)
    ensures Cruising(s.(uploaded := s.uploaded + more), goal)
    ensures !EndsRun(s.(uploaded := s.uploaded + more), goal)
  {
  }

  /** Once no target drives it, a seeding audit adds the same in every free second
      and nothing in a choked one; at a rate of zero its counter stands still. */
  lemma {:induction false} CruisesOn(s: PeerState, c: AuditConfig, e: EngineConfig, from: nat, ticks: seq<Moment>, rate: u64)
    requires Cruising(s, c.goal) && e.tickIntervalSecs == 1
    requires Steady(c, from, ticks) && GoesOnAtAll(c, ticks, rate)
    requires s.uploaded + rate * |ticks| <= USIZE_MAX
    ensures var t := Ticks(s, c, e, ticks);
            t.uploaded == s.uploaded + rate * Free(ChokedTicks(c, e, ticks))
            && t.downloaded == s.downloaded && t.left == s.left
    decreases |ticks|
  {
    hide Ticked, Choked, Seconds, Cruising, EndsRun, GoesOnAt;
    if ticks != [] {
      var choked, rest := ChokedTicks(c, e, ticks), ticks[1..];
      var t := Ticked(s, Seed, c, e, ticks[0]);
      OneMore(rate, |rest|);
      CruisingTick(s, c, e, ticks[0], rate);
      StaysReached(s, c.goal, if choked[0] then 0 else rate);
      assert choked[1..] == ChokedTicks(c, e, rest);
      SteadyTail(c, from, ticks);
      assert GoesOnAtAll(c, rest, rate);
      CruisesOn(t, c, e, from + 1, rest, rate);
      OneMore(rate, Free(choked[1..]));
    }
  }

  lemma {:induction false} OneMore(rate: nat, n: nat)
    ensures rate * (n + 1) == rate + rate * n && rate * n >= 0
  {
  }
}
