/**
 The deadline controller closed over whole runs: a seeding audit in reverse mode
 asks each second for the rate that still meets the target in time.

 Ticks come one a second, fully ramped up and without jitter; any of them may be
 choked.
 */
module Deadline {
  import opened Bytes
  import opened Goal
  import opened Tick
  import opened Peer

  /** Reverse mode with an upload target, for either direction and whatever is
      to happen once the goal is reached. */
  predicate ReverseMode(c: AuditConfig, e: EngineConfig) {
    c.goal.enabled && c.goal.uploadTarget > 0 && c.goal.targetSecs > 0 && e.tickIntervalSecs == 1
  }

  /** Reaching the upload target ends the run. */
  predicate StopsAtTarget(s: PeerState, c: AuditConfig) {
    c.goal.reachedAction.Stop? && DownloadReached(s, c.goal)
  }

  /** Tick `i` falls within second `from + i`, past the ramp, with no jitter. */
  predicate Steady(c: AuditConfig, from: nat, ticks: seq<Moment>) {
    forall i {:trigger ticks[i]} | 0 <= i < |ticks| ::
      && Seconds(ticks[i].elapsed) == from + i && ticks[i].jitterDraw == 0.0
      && ticks[i].elapsed >= c.rampUpSecs as real
  }

  /** The main loop's ticks while seeding, up to the goal-reached stop. */
  function Ticks(s: PeerState, c: AuditConfig, e: EngineConfig, ticks: seq<Moment>): PeerState
    decreases |ticks|
  {
    if ticks == [] then s
    else
      var t := Ticked(s, Seed, c, e, ticks[0]);
      if EndsRun(t, c.goal) then t else Ticks(t, c, e, ticks[1..])
  }

  /** No tick takes the counter past u64. */
  predicate NeverWraps(s: PeerState, c: AuditConfig, e: EngineConfig, ticks: seq<Moment>)
    decreases |ticks|
  {
    ticks == []
    || (&& s.uploaded + UploadedBy(s, Seed, c, e, ticks[0]) <= USIZE_MAX
        && var t := Ticked(s, Seed, c, e, ticks[0]);
           EndsRun(t, c.goal) || NeverWraps(t, c, e, ticks[1..]))
  }

  // ---------- The controller on its own ----------

  /** Bytes still missing after a second with `secs` left and a cap (0 for none). */
  function Missing(bytes: nat, secs: nat, cap: nat, choked: bool): (r: nat)
    requires secs > 0
    ensures r <= bytes
  {
    if choked then bytes
    else
      CeilBounds(bytes, secs);
      var rate := DivCeil(bytes, secs);
      bytes - if 0 < cap < rate then cap else rate
  }

  function MissingAfter(bytes: nat, secs: nat, cap: nat, choked: seq<bool>): (r: nat)
    requires |choked| <= secs
    ensures r <= bytes
    decreases |choked|
  {
    if choked == [] then bytes
    else MissingAfter(Missing(bytes, secs, cap, choked[0]), secs - 1, cap, choked[1..])
  }

  function ChokedTicks(c: AuditConfig, e: EngineConfig, ticks: seq<Moment>): (r: seq<bool>)
    ensures |r| == |ticks| && forall i | 0 <= i < |r| :: r[i] == Choked(c, e, ticks[i])
    ensures forall i | 0 <= i < |r| ::
              r[i] <==> || (c.freezeOnZeroLeechers && ticks[i].leechers == 0)
                        || ticks[i].burstRoll < e.burstChokeProbability
  {
    seq(|ticks|, i requires 0 <= i < |ticks| => Choked(c, e, ticks[i]))
  }

  lemma {:induction false} NothingMissing(secs: nat, cap: nat, choked: seq<bool>)
    requires |choked| <= secs
    ensures MissingAfter(0, secs, cap, choked) == 0
  {
  }

  /** One engine tick is one controller step. */
  lemma {:induction false} TickIsStep(s: PeerState, c: AuditConfig, e: EngineConfig, m: Moment)
    requires ReverseMode(c, e) && s.uploaded < c.goal.uploadTarget && Seconds(m.elapsed) < c.goal.targetSecs
    requires m.jitterDraw == 0.0 && m.elapsed >= c.rampUpSecs as real
    ensures Ticked(s, Seed, c, e, m).uploaded
            == c.goal.uploadTarget - Missing(c.goal.uploadTarget - s.uploaded,
                                             c.goal.targetSecs - Seconds(m.elapsed), c.maxUploadBps, Choked(c, e, m))
  {
    hide DivCeil, Seconds, Choked;
    var bytes, secs := c.goal.uploadTarget - s.uploaded, c.goal.targetSecs - Seconds(m.elapsed);
    CeilBounds(bytes, secs);
    var rate := Capped(DivCeil(bytes, secs), c.maxUploadBps);
    assert UploadRate(s, c, m) == rate;
    FullSpeed(rate, c, e, m);
  }

  lemma {:induction false} FullSpeed(rate: u64, c: AuditConfig, e: EngineConfig, m: Moment)
    requires e.tickIntervalSecs == 1 && m.jitterDraw == 0.0 && m.elapsed >= c.rampUpSecs as real
    ensures PerTick(UploadSpeed(rate, c, m), e) == rate
  {
    if c.rampUpSecs > 0 {
      var ramp := c.rampUpSecs as real;
      RampDone(m.elapsed, ramp);
    }
    assert Ramp(c, m.elapsed) == 1.0 && Jitter(m) == 1.0;
    assert UploadSpeed(rate, c, m) == rate as real;
    assert rate as real * e.tickIntervalSecs as real == rate as real;
  }

  lemma {:induction false} RampDone(elapsed: real, ramp: real)
    requires elapsed >= ramp > 0.0
    ensures elapsed / ramp >= 1.0
  {
    assert (elapsed / ramp) * ramp == elapsed;
  }

  /** After these ticks `missing` bytes are missing: exactly so while there are
      any; with none the counter has met the target, and stands on it if that
      ends the run. */
  ghost predicate Tracks(s: PeerState, c: AuditConfig, e: EngineConfig, ticks: seq<Moment>, missing: nat) {
    var uploaded, target := Ticks(s, c, e, ticks).uploaded, c.goal.uploadTarget;
    && (missing > 0 ==> uploaded == target - missing)
    && (missing == 0 && NeverWraps(s, c, e, ticks) ==> uploaded >= target)
    && (missing == 0 && StopsAtTarget(s, c) ==> uploaded == target)
  }

  /** The engine's whole run of ticks is the controller's. */
  lemma {:induction false} TicksFollow(s: PeerState, c: AuditConfig, e: EngineConfig, from: nat, ticks: seq<Moment>)
    requires ReverseMode(c, e) && Steady(c, from, ticks) && from + |ticks| <= c.goal.targetSecs
    requires s.uploaded < c.goal.uploadTarget
    ensures Tracks(s, c, e, ticks, MissingAfter(c.goal.uploadTarget - s.uploaded, c.goal.targetSecs - from,
                                                c.maxUploadBps, ChokedTicks(c, e, ticks)))
    decreases |ticks|
  {
    hide Ticked, Missing, Choked, Seconds, UploadedBy;
    if ticks != [] {
      var t, choked := Ticked(s, Seed, c, e, ticks[0]), ChokedTicks(c, e, ticks);
      var target, secs := c.goal.uploadTarget, c.goal.targetSecs - from;
      TickIsStep(s, c, e, ticks[0]);
      SeedTick(s, c, e, ticks[0]);
      assert choked[1..] == ChokedTicks(c, e, ticks[1..]);
      assert target - t.uploaded == Missing(target - s.uploaded, secs, c.maxUploadBps, choked[0]);
      if t.uploaded == target {
        NothingMissing(secs - 1, c.maxUploadBps, choked[1..]);
        if NeverWraps(t, c, e, ticks[1..]) { StaysAbove(t, c, e, ticks[1..]); }
      } else {
        SteadyTail(c, from, ticks);
        TicksFollow(t, c, e, from + 1, ticks[1..]);
      }
    }
  }

  lemma {:induction false} SeedTick(s: PeerState, c: AuditConfig, e: EngineConfig, m: Moment)
    ensures Ticked(s, Seed, c, e, m).downloaded == s.downloaded
    ensures s.uploaded + UploadedBy(s, Seed, c, e, m) <= USIZE_MAX ==> Ticked(s, Seed, c, e, m).uploaded >= s.uploaded
  {
    hide UploadedBy;
  }

  lemma {:induction false} StaysAbove(s: PeerState, c: AuditConfig, e: EngineConfig, ticks: seq<Moment>)
    requires NeverWraps(s, c, e, ticks)
    ensures Ticks(s, c, e, ticks).uploaded >= s.uploaded
    decreases |ticks|
  {
    hide Ticked, UploadedBy, EndsRun;
    if ticks != [] {
      SeedTick(s, c, e, ticks[0]);
      var t := Ticked(s, Seed, c, e, ticks[0]);
      if !EndsRun(t, c.goal) { StaysAbove(t, c, e, ticks[1..]); }
    }
  }

  lemma {:induction false} SteadyTail(c: AuditConfig, from: nat, ticks: seq<Moment>)
    requires Steady(c, from, ticks) && ticks != []
    ensures Steady(c, from + 1, ticks[1..])
  {
    hide Seconds;
    var rest := ticks[1..];
    forall i {:trigger rest[i]} | 0 <= i < |rest|
      ensures Seconds(rest[i].elapsed) == from + 1 + i && rest[i].jitterDraw == 0.0
      ensures rest[i].elapsed >= c.rampUpSecs as real
    {
      assert rest[i] == ticks[i + 1];
    }
  }

  // ---------- Meeting the deadline ----------

  /** The ticks that are not choked. */
  function Free(choked: seq<bool>): (n: nat)
    ensures n <= |choked|
  {
    if choked == [] then 0 else (if choked[0] then 0 else 1) + Free(choked[1..])
  }

  lemma {:induction false} LastIsChoked(choked: seq<bool>)
    requires choked != [] && choked[|choked| - 1]
    ensures Free(choked) < |choked|
  {
    if |choked| > 1 { LastIsChoked(choked[1..]); }
  }

  /** Without a cap nothing is left missing exactly when the last tick is free,
      or there are as many free ticks as bytes. */
  lemma {:induction false} LastTickDecides(bytes: nat, secs: nat, choked: seq<bool>)
    requires |choked| == secs > 0 && bytes > 0
    ensures MissingAfter(bytes, secs, 0, choked) == 0 <==> !choked[secs - 1] || Free(choked) >= bytes
    decreases secs
  {
    hide DivCeil;
    var rest := Missing(bytes, secs, 0, choked[0]);
    CeilIff(bytes, secs, 1);
    CeilBounds(bytes, secs);
    if secs == 1 {
      CeilIff(bytes, 1, bytes - 1);
      assert choked[1..] == [];
    } else {
      if bytes >= secs { KeepsPace(bytes, secs); }
      if choked[secs - 1] { LastIsChoked(choked[1..]); }
      if rest == 0 {
        NothingMissing(secs - 1, 0, choked[1..]);
      } else {
        LastTickDecides(rest, secs - 1, choked[1..]);
      }
    }
  }

  /** With a byte or more to send in each second left, that stays so. */
  lemma {:induction false} KeepsPace(bytes: nat, secs: nat)
    requires bytes >= secs > 1
    ensures bytes - DivCeil(bytes, secs) >= secs - 1
  {
    CeilIff(bytes, secs, bytes - (secs - 1));
    var more := bytes - secs;
    assert (more + 1) * secs == more * secs + secs;
    assert more * secs >= more by { Times(more, 1, secs); }
  }

  /** Whatever ticks are choked, the target is met by the deadline if and only if
      the last tick before it is free, or as many ticks are free as bytes are due;
      and it is met exactly if that ends the run. */
  lemma {:induction false} MeetsDeadlineIff(s: PeerState, c: AuditConfig, e: EngineConfig, from: nat, ticks: seq<Moment>)
    requires ReverseMode(c, e) && c.maxUploadBps == 0
    requires Steady(c, from, ticks) && from + |ticks| == c.goal.targetSecs && |ticks| > 0
    requires s.uploaded < c.goal.uploadTarget
    ensures var target, uploaded := c.goal.uploadTarget, Ticks(s, c, e, ticks).uploaded;
            var inTime := !Choked(c, e, ticks[|ticks| - 1]) || Free(ChokedTicks(c, e, ticks)) >= target - s.uploaded;
            && (NeverWraps(s, c, e, ticks) ==> (uploaded >= target <==> inTime))
            && (StopsAtTarget(s, c) ==> uploaded <= target && (uploaded == target <==> inTime))
  {
    hide Ticks, MissingAfter, Choked, Steady, NeverWraps, StopsAtTarget;
    TicksFollow(s, c, e, from, ticks);
    LastTickDecides(c.goal.uploadTarget - s.uploaded, |ticks|, ChokedTicks(c, e, ticks));
  }

  // ---------- Without chokes: the even split ----------

  function Never(n: nat): (r: seq<bool>)
    ensures |r| == n && forall i | 0 <= i < n :: !r[i]
  {
    seq(n, _ => false)
  }

  /** What is missing after `n` seconds of an even split of `bytes` over `secs`:
      the first `bytes % secs` seconds carry one byte more than the others. */
  function EvenSplit(bytes: nat, secs: nat, n: nat): nat
    requires n <= secs && secs > 0
  {
    var q, r := bytes / secs, bytes % secs;
    Product(q, secs - n);
    q * (secs - n) + if r > n then r - n else 0
  }

  lemma {:induction false} Product(a: nat, b: nat)
    ensures a * b >= 0
  {
  }

  lemma {:induction false} Quotient(q: nat, secs: nat, more: nat)
    requires more < secs
    ensures (q * secs + more) / secs == q && (q * secs + more) % secs == more
  {
    var n := q * secs + more;
    var d, m := n / secs, n % secs;
    assert n == secs * d + m;
    assert secs * (d + 1) == secs * d + secs && secs * (q + 1) == secs * q + secs;
    if d < q { Times(secs, d + 1, q); }
    if d > q { Times(secs, q + 1, d); }
  }

  lemma {:induction false} SplitStep(q: nat, more: nat, secs: nat)
    requires more < secs
    ensures Missing(q * secs + more, secs, 0, false) == q * (secs - 1) + if more > 0 then more - 1 else 0
  {
    hide DivCeil;
    CeilOf(q, secs, more);
    assert q * secs - q == q * (secs - 1);
  }

  lemma {:induction false} EvenStep(bytes: nat, secs: nat, n: nat)
    requires n < secs
    ensures Missing(EvenSplit(bytes, secs, n), secs - n, 0, false) == EvenSplit(bytes, secs, n + 1)
  {
    hide Missing;
    var q, r := bytes / secs, bytes % secs;
    SplitStep(q, if r > n then r - n else 0, secs - n);
  }

  /** With no choked tick and no cap the controller sends the even split: every
      second `bytes / secs`, and one more in each of the first `bytes % secs`. */
  lemma {:induction false} EvenWithoutChokes(bytes: nat, secs: nat, done: nat, n: nat)
    requires secs > 0 && done + n <= secs
    ensures MissingAfter(EvenSplit(bytes, secs, done), secs - done, 0, Never(n)) == EvenSplit(bytes, secs, done + n)
    decreases n
  {
    hide Missing, EvenSplit;
    if n > 0 {
      EvenStep(bytes, secs, done);
      assert Never(n)[1..] == Never(n - 1);
      EvenWithoutChokes(bytes, secs, done + 1, n - 1);
    }
  }

  // ---------- With a cap ----------

  lemma {:induction false} StaysWithin(bytes: nat, secs: nat, cap: nat)
    requires secs > 0 && bytes <= cap * secs
    ensures bytes - DivCeil(bytes, secs) <= cap * (secs - 1)
  {
    hide DivCeil;
    var spare := cap * secs - bytes;
    assert cap * secs == cap * (secs - 1) + cap;
    if spare < cap {
      CeilIff(bytes, secs, cap - spare - 1);
      assert (cap - (spare + 1)) * secs == cap * secs - (spare + 1) * secs;
      Times(spare + 1, 1, secs);
    }
  }

  lemma {:induction false} CapStep(bytes: nat, secs: nat, cap: nat)
    requires secs > 0 && cap > 0
    ensures bytes <= cap * secs ==> Missing(bytes, secs, cap, false) <= cap * (secs - 1)
    ensures bytes > cap * secs ==> Missing(bytes, secs, cap, false) == bytes - cap > cap * (secs - 1)
  {
    hide DivCeil;
    CeilIff(bytes, secs, cap);
    assert cap * secs == cap * (secs - 1) + cap;
    if bytes <= cap * secs { StaysWithin(bytes, secs, cap); }
  }

  /** Once a cap cannot carry what is left it binds in every free tick to come. */
  lemma {:induction false} CapBinds(bytes: nat, secs: nat, cap: nat, choked: seq<bool>)
    requires cap > 0 && |choked| <= secs && bytes > cap * secs
    ensures bytes >= cap * Free(choked) && MissingAfter(bytes, secs, cap, choked) == bytes - cap * Free(choked)
    decreases |choked|
  {
    hide Missing;
    Times(cap, Free(choked), secs);
    if choked != [] {
      CapStep(bytes, secs, cap);
      Times(cap, secs - 1, secs);
      assert Missing(bytes, secs, cap, true) == bytes by { ChokedMisses(bytes, secs, cap); }
      CapBinds(Missing(bytes, secs, cap, choked[0]), secs - 1, cap, choked[1..]);
      assert cap * (1 + Free(choked[1..])) == cap + cap * Free(choked[1..]);
    }
  }

  lemma {:induction false} ChokedMisses(bytes: nat, secs: nat, cap: nat)
    requires secs > 0
    ensures Missing(bytes, secs, cap, true) == bytes
  {
  }

  /** A cap that can carry what is left does not show in the next second. */
  lemma {:induction false} CapIdle(bytes: nat, secs: nat, cap: nat, choked: bool)
    requires secs > 0 && cap > 0 && bytes <= cap * secs
    ensures Missing(bytes, secs, cap, choked) == Missing(bytes, secs, 0, choked)
  {
    hide DivCeil;
    CeilIff(bytes, secs, cap);
  }

  /** Under a cap nothing is left missing exactly when, without the cap, what is
      missing after each second could still be carried at the cap's rate. */
  lemma {:induction false} CapMeetsIff(bytes: nat, secs: nat, cap: nat, choked: seq<bool>)
    requires cap > 0 && |choked| == secs
    ensures MissingAfter(bytes, secs, cap, choked) == 0
            <==> forall j | 0 <= j <= secs :: MissingAfter(bytes, secs, 0, choked[..j]) <= cap * (secs - j)
    decreases secs
  {
    hide Missing;
    assert MissingAfter(bytes, secs, 0, choked[..0]) == bytes;
    if bytes > cap * secs {
      CapBinds(bytes, secs, cap, choked);
      Times(cap, Free(choked), secs);
      assert MissingAfter(bytes, secs, 0, choked[..0]) > cap * (secs - 0);
    } else if secs > 0 {
      CapIdle(bytes, secs, cap, choked[0]);
      var rest := Missing(bytes, secs, 0, choked[0]);
      CapMeetsIff(rest, secs - 1, cap, choked[1..]);
      forall j | 0 < j <= secs
        ensures MissingAfter(bytes, secs, 0, choked[..j]) == MissingAfter(rest, secs - 1, 0, choked[1..][..j - 1])
      {
        assert choked[..j][1..] == choked[1..][..j - 1];
      }
      ShiftedBound(bytes, secs, cap, choked, rest);
    }
  }

  lemma {:induction false} ShiftedBound(bytes: nat, secs: nat, cap: nat, choked: seq<bool>, rest: nat)
    requires |choked| == secs > 0 && bytes <= cap * secs
    requires MissingAfter(bytes, secs, 0, choked[..0]) == bytes
    requires forall j | 0 < j <= secs ::
      MissingAfter(bytes, secs, 0, choked[..j]) == MissingAfter(rest, secs - 1, 0, choked[1..][..j - 1])
    ensures (forall j | 0 <= j <= secs :: MissingAfter(bytes, secs, 0, choked[..j]) <= cap * (secs - j))
            <==> forall j | 0 <= j <= secs - 1 :: MissingAfter(rest, secs - 1, 0, choked[1..][..j]) <= cap * (secs - 1 - j)
  {
    hide MissingAfter;
    if forall j | 0 <= j <= secs :: MissingAfter(bytes, secs, 0, choked[..j]) <= cap * (secs - j) {
      forall j | 0 <= j <= secs - 1
        ensures MissingAfter(rest, secs - 1, 0, choked[1..][..j]) <= cap * (secs - 1 - j)
      {
        assert MissingAfter(bytes, secs, 0, choked[..j + 1]) <= cap * (secs - (j + 1));
      }
    }
    if forall j | 0 <= j <= secs - 1 :: MissingAfter(rest, secs - 1, 0, choked[1..][..j]) <= cap * (secs - 1 - j) {
      forall j | 0 <= j <= secs ensures MissingAfter(bytes, secs, 0, choked[..j]) <= cap * (secs - j) {
        if j > 0 { assert MissingAfter(rest, secs - 1, 0, choked[1..][..j - 1]) <= cap * (secs - 1 - (j - 1)); }
      }
    }
  }

  /** With no choked tick a cap leaves exactly what it cannot carry. */
  lemma {:induction false} CappedWithoutChokes(bytes: nat, secs: nat, cap: nat)
    requires cap > 0
    ensures MissingAfter(bytes, secs, cap, Never(secs)) == SaturatingSub(bytes, cap * secs)
    decreases secs
  {
    hide Missing;
    if secs > 0 {
      CapStep(bytes, secs, cap);
      assert Never(secs)[1..] == Never(secs - 1);
      assert cap * secs == cap * (secs - 1) + cap;
      CappedWithoutChokes(Missing(bytes, secs, cap, false), secs - 1, cap);
    }
  }

  // ---------- The same for the engine ----------

  predicate NoneChoked(c: AuditConfig, e: EngineConfig, ticks: seq<Moment>) {
    forall i | 0 <= i < |ticks| :: !Choked(c, e, ticks[i])
  }

  lemma {:induction false} NoneIsNever(c: AuditConfig, e: EngineConfig, ticks: seq<Moment>)
    requires NoneChoked(c, e, ticks)
    ensures ChokedTicks(c, e, ticks) == Never(|ticks|)
  {
    hide Choked;
  }

  /** With no choked tick and no cap the engine uploads evenly: after `n` of the
      seconds left it is exactly on the even split. */
  lemma {:induction false} UploadsEvenly(s: PeerState, c: AuditConfig, e: EngineConfig, from: nat, ticks: seq<Moment>)
    requires ReverseMode(c, e) && c.maxUploadBps == 0 && NoneChoked(c, e, ticks)
    requires Steady(c, from, ticks) && from + |ticks| <= c.goal.targetSecs && from < c.goal.targetSecs
    requires s.uploaded < c.goal.uploadTarget
    ensures Tracks(s, c, e, ticks, EvenSplit(c.goal.uploadTarget - s.uploaded, c.goal.targetSecs - from, |ticks|))
  {
    hide Ticks, MissingAfter, Choked, Steady, NoneChoked, Never, Tracks;
    var bytes, secs := c.goal.uploadTarget - s.uploaded, c.goal.targetSecs - from;
    TicksFollow(s, c, e, from, ticks);
    NoneIsNever(c, e, ticks);
    assert EvenSplit(bytes, secs, 0) == bytes;
    EvenWithoutChokes(bytes, secs, 0, |ticks|);
  }

  /** The rate asked for never rises while no tick is choked. */
  lemma {:induction false} RateNeverRises(bytes: nat, secs: nat, n: nat)
    requires n + 1 < secs
    ensures DivCeil(EvenSplit(bytes, secs, n + 1), secs - n - 1) <= DivCeil(EvenSplit(bytes, secs, n), secs - n)
  {
    hide DivCeil;
    var q, r := bytes / secs, bytes % secs;
    CeilOf(q, secs - n, if r > n then r - n else 0);
    CeilOf(q, secs - n - 1, if r > n + 1 then r - n - 1 else 0);
  }

  lemma {:induction false} CeilOf(q: nat, secs: nat, more: nat)
    requires more < secs
    ensures q * secs + more >= 0 && DivCeil(q * secs + more, secs) == q + if more > 0 then 1 else 0
  {
    Product(q, secs);
    Quotient(q, secs, more);
  }

  /** The same for the engine: after one more tick it asks for no more. */
  lemma {:induction false} EngineRateNeverRises(s: PeerState, c: AuditConfig, e: EngineConfig, from: nat, ticks: seq<Moment>)
    requires ReverseMode(c, e) && c.maxUploadBps == 0 && NoneChoked(c, e, ticks)
    requires Steady(c, from, ticks) && ticks != [] && from + |ticks| < c.goal.targetSecs
    requires s.uploaded < c.goal.uploadTarget
    requires NeverWraps(s, c, e, ticks) || StopsAtTarget(s, c)
    ensures var target, secs, n := c.goal.uploadTarget, c.goal.targetSecs, |ticks|;
            RequiredBps(target, Ticks(s, c, e, ticks).uploaded, secs, from + n)
            <= RequiredBps(target, Ticks(s, c, e, ticks[..n - 1]).uploaded, secs, from + n - 1)
  {
    hide Ticks, Choked, Seconds, EvenSplit, DivCeil, NeverWraps, StopsAtTarget;
    var bytes, secs, n := c.goal.uploadTarget - s.uploaded, c.goal.targetSecs - from, |ticks|;
    UploadsEvenly(s, c, e, from, ticks);
    UploadsEvenly(s, c, e, from, ticks[..n - 1]);
    RateNeverRises(bytes, secs, n - 1);
    CeilBounds(EvenSplit(bytes, secs, n), secs - n);
    CeilBounds(EvenSplit(bytes, secs, n - 1), secs - (n - 1));
  }

  /** Under a cap, whatever ticks are choked: what was missing at the outset and
      the cap could never carry shrinks by the cap in each free tick; otherwise the
      target is met exactly when the cap could carry, after each second, what the
      uncapped controller would still miss. */
  lemma {:induction false} CapDecides(s: PeerState, c: AuditConfig, e: EngineConfig, from: nat, ticks: seq<Moment>)
    requires ReverseMode(c, e) && c.maxUploadBps > 0
    requires Steady(c, from, ticks) && from + |ticks| == c.goal.targetSecs
    requires s.uploaded < c.goal.uploadTarget
    ensures var target, cap, n := c.goal.uploadTarget, c.maxUploadBps, |ticks|;
            var bytes, choked, uploaded := target - s.uploaded, ChokedTicks(c, e, ticks), Ticks(s, c, e, ticks).uploaded;
            var inTime := forall j | 0 <= j <= n :: MissingAfter(bytes, n, 0, choked[..j]) <= cap * (n - j);
            && (bytes > cap * n ==> uploaded == s.uploaded + cap * Free(choked) < target)
            && (NeverWraps(s, c, e, ticks) ==> (uploaded >= target <==> inTime))
            && (StopsAtTarget(s, c) ==> uploaded <= target && (uploaded == target <==> inTime))
            && (NoneChoked(c, e, ticks) ==> (inTime <==> bytes <= cap * n))
  {
    hide Ticks, MissingAfter, Choked, Steady, NoneChoked, Never, NeverWraps, StopsAtTarget;
    var bytes, cap, choked := c.goal.uploadTarget - s.uploaded, c.maxUploadBps, ChokedTicks(c, e, ticks);
    TicksFollow(s, c, e, from, ticks);
    CapMeetsIff(bytes, |ticks|, cap, choked);
    if bytes > cap * |ticks| {
      CapBinds(bytes, |ticks|, cap, choked);
      Times(cap, Free(choked), |ticks|);
    }
    if NoneChoked(c, e, ticks) {
      NoneIsNever(c, e, ticks);
      CappedWithoutChokes(bytes, |ticks|, cap);
    }
  }
}
