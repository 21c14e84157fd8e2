/**
 Goal arithmetic: the rate the engine needs to reach a target by its deadline,
 and the time the interface says it will take.
 */
module Goal {
  import opened Wrappers
  import opened Bytes
  import opened Peer

  datatype Direction = Upload | DownloadAndUpload

  datatype ReachedAction = Stop | ContinueInitial | ContinueCustom

  datatype GoalConfig = GoalConfig(
    enabled: bool, direction: Direction, uploadTarget: u64, downloadTarget: u64,
    targetSecs: u64, reachedAction: ReachedAction, reachedBps: u64)

  function UploadTarget(goal: GoalConfig): u64 {
    goal.uploadTarget
  }

  function DownloadTarget(goal: GoalConfig): u64 {
    if goal.direction.DownloadAndUpload? then goal.downloadTarget else 0
  }

  predicate UploadReached(s: PeerState, goal: GoalConfig) {
    UploadTarget(goal) == 0 || s.uploaded >= UploadTarget(goal)
  }

  predicate DownloadReached(s: PeerState, goal: GoalConfig) {
    DownloadTarget(goal) == 0 || s.downloaded >= DownloadTarget(goal)
  }

  /** All tracked targets are reached; never so without a target. */
  predicate Reached(s: PeerState, goal: GoalConfig) {
    && goal.enabled
    && !(UploadTarget(goal) == 0 && DownloadTarget(goal) == 0)
    && UploadReached(s, goal) && DownloadReached(s, goal)
  }

  /** The main loop is left for the tail. */
  predicate EndsRun(s: PeerState, goal: GoalConfig) {
    goal.reachedAction.Stop? && Reached(s, goal)
  }

  function SaturatingSub(a: nat, b: nat): nat {
    if a >= b then a - b else 0
  }

  function DivCeil(a: nat, b: nat): nat
    requires b > 0
  {
    if a % b > 0 then a / b + 1 else a / b
  }

  /** `goal_required_bps`; `elapsed` in whole seconds. */
  function RequiredBps(target: u64, current: u64, targetSecs: u64, elapsed: nat): (r: nat)
    ensures r <= SaturatingSub(target, current)
  {
    var bytes, secs := SaturatingSub(target, current), SaturatingSub(targetSecs, elapsed);
    if targetSecs == 0 || bytes == 0 || secs == 0 then 0
    else
      CeilBounds(bytes, secs);
      DivCeil(bytes, secs)
  }

  function EtaSecs(target: u64, current: u64, bps: u64): Option<nat> {
    if target == 0 then None
    else
      var remaining := SaturatingSub(target, current);
      if remaining == 0 then Some(0)
      else if bps == 0 then None
      else Some(DivCeil(remaining, bps))
  }

  function Later(a: Option<nat>, b: Option<nat>): Option<nat> {
    match (a, b)
    case (Some(x), Some(y)) => Some(if x > y then x else y)
    case (Some(_), None) => a
    case _ => b
  }

  function Sooner(a: Option<nat>, b: Option<nat>): Option<nat> {
    match (a, b)
    case (Some(x), Some(y)) => Some(if x < y then x else y)
    case (Some(_), None) => a
    case _ => b
  }

  function BindingEta(upEta: Option<nat>, dlEta: Option<nat>, targetSecs: u64, maxElapsed: nat): Option<nat> {
    Sooner(Later(upEta, dlEta), if targetSecs > 0 then Some(SaturatingSub(targetSecs, maxElapsed)) else None)
  }

  // ---------- Ceiling division ----------

  lemma {:induction false} CeilIff(a: nat, b: nat, n: nat)
    requires b > 0
    ensures DivCeil(a, b) <= n <==> a <= n * b
  {
    var q, r := a / b, a % b;
    assert a == b * q + r && b * (q + 1) == b * q + b;
    if a <= n * b {
      if q > n { Times(b, n + 1, q); }
      if q == n { assert b * q == n * b; }
    } else if DivCeil(a, b) <= n {
      Times(b, DivCeil(a, b), n);
    }
  }

  lemma {:induction false} Times(b: nat, m: nat, n: nat)
    requires m <= n
    ensures b * m <= b * n
  {
    assert b * n == b * m + b * (n - m);
  }

  lemma {:induction false} CeilBounds(a: nat, b: nat)
    requires b > 0
    ensures DivCeil(a, b) <= a
    ensures a > 0 ==> DivCeil(a, b) > 0
  {
    CeilIff(a, b, a);
    if a > 0 { CeilIff(a, b, 0); }
    assert a <= a * b by { Times(a, 1, b); }
  }

  // ---------- Rates and times ----------

  /** A speed is at least what the engine asks for exactly when the interface's
      ETA at that speed is within the time left. */
  lemma {:induction false} RateMeetsDeadlineIff(target: u64, current: u64, targetSecs: u64, elapsed: nat, bps: u64)
    requires target > 0 && elapsed < targetSecs && bps > 0
    ensures EtaSecs(target, current, bps).Some?
    ensures bps >= RequiredBps(target, current, targetSecs, elapsed)
            <==> EtaSecs(target, current, bps).value <= targetSecs - elapsed
  {
    hide DivCeil;
    var remaining, secs := SaturatingSub(target, current), targetSecs - elapsed;
    CeilIff(remaining, secs, bps);
    CeilIff(remaining, bps, secs);
    assert bps * secs == secs * bps;
  }

  /** Nothing is asked for exactly when there is no deadline, it is over, or the
      target is met; otherwise the least rate that still covers it. */
  lemma {:induction false} AskedIff(target: u64, current: u64, targetSecs: u64, elapsed: nat, n: nat)
    ensures RequiredBps(target, current, targetSecs, elapsed) > 0 <==> elapsed < targetSecs && current < target
    ensures elapsed < targetSecs ==>
              (RequiredBps(target, current, targetSecs, elapsed) <= n <==> current + n * (targetSecs - elapsed) >= target)
  {
    hide DivCeil;
    var bytes, secs := SaturatingSub(target, current), SaturatingSub(targetSecs, elapsed);
    if secs > 0 {
      CeilBounds(bytes, secs);
      CeilIff(bytes, secs, n);
      Times(secs, 0, n);
    }
  }

  /** The ETA is the least number of seconds after which the target is met. */
  lemma {:induction false} EtaIsLeast(target: u64, current: u64, bps: u64, n: nat)
    requires EtaSecs(target, current, bps).Some?
    ensures current + n * bps >= target <==> EtaSecs(target, current, bps).value <= n
  {
    hide DivCeil;
    var remaining := SaturatingSub(target, current);
    if remaining > 0 {
      CeilIff(remaining, bps, n);
    } else {
      Times(n, 0, bps);
    }
  }

  /** No ETA exactly when there is no target, or none can be met at no speed. */
  lemma {:induction false} NoEtaIff(target: u64, current: u64, bps: u64)
    ensures EtaSecs(target, current, bps).None? <==> target == 0 || forall n: nat :: current + n * bps < target
  {
    if EtaSecs(target, current, bps).Some? {
      EtaIsLeast(target, current, bps, EtaSecs(target, current, bps).value);
      assert current + EtaSecs(target, current, bps).value * bps >= target;
    } else if target > 0 {
      forall n: nat ensures current + n * bps < target { assert n * bps == 0; }
    }
  }

  /** The binding ETA is the least time after which every target with a known
      ETA is met, or the deadline if that comes first. */
  lemma {:induction false} BindingEtaIsLeast(
    up: u64, uploaded: u64, upBps: u64, dl: u64, downloaded: u64, dlBps: u64,
    targetSecs: u64, maxElapsed: nat, n: nat)
    ensures var upEta, dlEta := EtaSecs(up, uploaded, upBps), EtaSecs(dl, downloaded, dlBps);
            var eta := BindingEta(upEta, dlEta, targetSecs, maxElapsed);
            && (eta.None? <==> upEta.None? && dlEta.None? && targetSecs == 0)
            && (eta.Some? ==>
                  (eta.value <= n
                   <==> (|| ((upEta.Some? || dlEta.Some?)
                             && (upEta.Some? ==> uploaded + n * upBps >= up)
                             && (dlEta.Some? ==> downloaded + n * dlBps >= dl))
                         || (targetSecs > 0 && maxElapsed + n >= targetSecs))))
  {
    hide EtaSecs;
    if EtaSecs(up, uploaded, upBps).Some? { EtaIsLeast(up, uploaded, upBps, n); }
    if EtaSecs(dl, downloaded, dlBps).Some? { EtaIsLeast(dl, downloaded, dlBps, n); }
  }
}
