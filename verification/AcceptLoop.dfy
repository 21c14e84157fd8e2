/**
 The accept loop's bookkeeping: connections counted per address, and permits.

 Every lock region is one atomic step, so a run is any interleaving of the
 accept loop with the ends of connections it spawned earlier. The bookkeeping
 is proved to take the decisions of a server that counts its live connections
 afresh each time.
 */
module AcceptLoop {
  import opened Bytes

  type Ip = bytes

  /** Connections counted for `ip`; an absent entry means none. */
  function Count(perIp: map<Ip, nat>, ip: Ip): nat {
    if ip in perIp then perIp[ip] else 0
  }

  function SaturatingPred(n: nat): nat {
    if n == 0 then 0 else n - 1
  }

  // ---------- The shared state ----------

  /** The counter map and the semaphore; one method per lock region. */
  class Book {
    const maxPerIp: u32
    const maxConnections: nat
    var perIp: map<Ip, nat>
    var permits: nat

    constructor (maxPerIp: u32, maxConnections: nat)
      ensures this.maxPerIp == maxPerIp && this.maxConnections == maxConnections
      ensures perIp == map[] && permits == maxConnections
    {
      this.maxPerIp, this.maxConnections := maxPerIp, maxConnections;
      perIp, permits := map[], maxConnections;
    }

    /** Counts one more connection unless the address is at its limit. Even a
        refusal leaves an entry behind. */
    method CountIn(ip: Ip) returns (admitted: bool)
      modifies this`perIp
      ensures admitted == (Count(old(perIp), ip) < maxPerIp)
      ensures perIp == Counted(old(perIp), ip, maxPerIp)
    {
      if ip !in perIp { perIp := perIp[ip := 0]; }
      if perIp[ip] >= maxPerIp { return false; }
      perIp := perIp[ip := perIp[ip] + 1];
      return true;
    }

    method TryAcquire() returns (ok: bool)
      modifies this`permits
      ensures ok == (old(permits) > 0)
      ensures permits == if ok then old(permits) - 1 else old(permits)
    {
      ok := permits > 0;
      if ok { permits := permits - 1; }
    }

    /** Takes the count back when no permit was left; the entry stays. */
    method GiveBack(ip: Ip)
      modifies this`perIp
      ensures perIp == GivenBack(old(perIp), ip)
    {
      if ip in perIp { perIp := perIp[ip := SaturatingPred(perIp[ip])]; }
    }

    /** A connection's guard going out of scope. */
    method DropGuard(ip: Ip)
      modifies this`perIp
      ensures perIp == Uncounted(old(perIp), ip)
    {
      if ip in perIp {
        perIp := perIp[ip := SaturatingPred(perIp[ip])];
        if perIp[ip] == 0 { perIp := perIp - {ip}; }
      }
    }

    /** A connection's permit going out of scope, after its guard. */
    method ReleasePermit()
      modifies this`permits
      ensures permits == old(permits) + 1
    {
      permits := permits + 1;
    }
  }

  function Counted(perIp: map<Ip, nat>, ip: Ip, maxPerIp: nat): map<Ip, nat> {
    perIp[ip := if Count(perIp, ip) < maxPerIp then Count(perIp, ip) + 1 else Count(perIp, ip)]
  }

  function GivenBack(perIp: map<Ip, nat>, ip: Ip): map<Ip, nat> {
    if ip in perIp then perIp[ip := SaturatingPred(perIp[ip])] else perIp
  }

  function Uncounted(perIp: map<Ip, nat>, ip: Ip): map<Ip, nat> {
    if ip !in perIp then perIp
    else if perIp[ip] <= 1 then perIp - {ip}
    else perIp[ip := perIp[ip] - 1]
  }

  // ---------- Runs ----------

  /** Where the accept loop stands with the socket it last accepted. */
  datatype Pending = Idle | Admitted(ip: Ip) | NoPermit(ip: Ip)

  datatype Limits = Limits(maxPerIp: u32, maxConnections: nat)

  /** `live` has an occurrence per running connection with its guard; `closing`
      counts the ones that dropped the guard and still hold their permit. */
  datatype System = System(
    perIp: map<Ip, nat>, permits: nat,
    pending: Pending, live: multiset<Ip>, closing: nat)

  datatype Step = Accept(ip: Ip) | Acquire | GiveUp | EndGuard(ip: Ip) | EndPermit

  predicate Enabled(pending: Pending, live: multiset<Ip>, closing: nat, step: Step) {
    match step
    case Accept(_) => pending.Idle?
    case Acquire => pending.Admitted?
    case GiveUp => pending.NoPermit?
    case EndGuard(ip) => ip in live
    case EndPermit => closing > 0
  }

  function Next(l: Limits, s: System, step: Step): System
    requires Enabled(s.pending, s.live, s.closing, step)
  {
    match step
    case Accept(ip) =>
      s.(perIp := Counted(s.perIp, ip, l.maxPerIp),
         pending := if Count(s.perIp, ip) < l.maxPerIp then Admitted(ip) else Idle)
    case Acquire =>
      if s.permits > 0 then
        s.(permits := s.permits - 1, live := s.live + multiset{s.pending.ip}, pending := Idle)
      else s.(pending := NoPermit(s.pending.ip))
    case GiveUp => s.(perIp := GivenBack(s.perIp, s.pending.ip), pending := Idle)
    case EndGuard(ip) =>
      s.(perIp := Uncounted(s.perIp, ip), live := s.live - multiset{ip}, closing := s.closing + 1)
    case EndPermit => s.(permits := s.permits + 1, closing := s.closing - 1)
  }

  function Initial(l: Limits): System {
    System(map[], l.maxConnections, Idle, multiset{}, 0)
  }

  ghost predicate Follows(l: Limits, s: System, step: Step, t: System) {
    Enabled(s.pending, s.live, s.closing, step) && t == Next(l, s, step)
  }

  /** `run` is the states passed through from a fresh server. */
  ghost predicate IsRun(l: Limits, run: seq<System>, steps: seq<Step>) {
    && |run| == |steps| + 1 && run[0] == Initial(l)
    && forall i {:trigger steps[i]} | 0 <= i < |steps| :: Follows(l, run[i], steps[i], run[i + 1])
  }

  // ---------- What every run keeps ----------

  /** One while the accepted socket of `ip` is counted but not yet spawned. */
  function InFlight(pending: Pending, ip: Ip): nat {
    if !pending.Idle? && pending.ip == ip then 1 else 0
  }

  predicate Exact(l: Limits, s: System, ip: Ip) {
    Count(s.perIp, ip) == s.live[ip] + InFlight(s.pending, ip) <= l.maxPerIp
  }

  ghost predicate Inv(l: Limits, s: System) {
    && (forall ip :: Exact(l, s, ip))
    && s.permits + |s.live| + s.closing == l.maxConnections
  }

  lemma {:induction false} StepKeepsExact(l: Limits, s: System, step: Step, ip: Ip)
    requires Enabled(s.pending, s.live, s.closing, step)
    requires Exact(l, s, ip)
    requires step.EndGuard? ==> Exact(l, s, step.ip)
    requires step.GiveUp? ==> Exact(l, s, s.pending.ip)
    ensures Exact(l, Next(l, s, step), ip)
  {
  }

  lemma {:induction false} StepKeepsInv(l: Limits, s: System, step: Step)
    requires Inv(l, s) && Enabled(s.pending, s.live, s.closing, step)
    ensures Inv(l, Next(l, s, step))
  {
    var t := Next(l, s, step);
    forall ip ensures Exact(l, t, ip) {
      StepKeepsExact(l, s, step, ip);
    }
  }

  /** In every interleaving each address's count is its live connections plus
      the accept in flight, within its limit; held permits are within theirs. */
  lemma {:induction false} CountsAreExact(l: Limits, run: seq<System>, steps: seq<Step>, i: nat)
    requires IsRun(l, run, steps) && i < |run|
    ensures Inv(l, run[i])
    ensures |run[i].live| + run[i].closing <= l.maxConnections
    ensures forall ip :: run[i].live[ip] <= l.maxPerIp
  {
    if i > 0 {
      CountsAreExact(l, run, steps, i - 1);
      StepKeepsInv(l, run[i - 1], steps[i - 1]);
    }
    var s := run[i];
    forall ip ensures s.live[ip] <= l.maxPerIp {
      assert Exact(l, s, ip);
    }
  }

  /** Wherever a run decrements a count, the entry is there and positive: the
      subtraction never saturates and no decrement is lost. */
  lemma {:induction false} NeverSaturates(l: Limits, run: seq<System>, steps: seq<Step>, i: nat)
    requires IsRun(l, run, steps) && i < |steps|
    ensures Follows(l, run[i], steps[i], run[i + 1])
    ensures var s := run[i]; match steps[i]
            case GiveUp => s.pending.ip in s.perIp && s.perIp[s.pending.ip] >= 1
            case EndGuard(ip) => ip in s.perIp && s.perIp[ip] >= 1
            case _ => true
  {
    CountsAreExact(l, run, steps, i);
    var s := run[i];
    match steps[i]
    case GiveUp => assert Exact(l, s, s.pending.ip);
    case EndGuard(ip) => assert Exact(l, s, ip);
    case _ =>
  }

  /** When everything has ended, nothing is still counted and no permit is out. */
  lemma {:induction false} QuietIsEmpty(l: Limits, run: seq<System>, steps: seq<Step>, i: nat)
    requires IsRun(l, run, steps) && i < |run|
    requires run[i].pending.Idle? && run[i].live == multiset{} && run[i].closing == 0
    ensures run[i].permits == l.maxConnections && forall ip :: Count(run[i].perIp, ip) == 0
  {
    CountsAreExact(l, run, steps, i);
    var s := run[i];
    forall ip ensures Count(s.perIp, ip) == 0 {
      assert Exact(l, s, ip);
    }
  }

  // ---------- A server that counts afresh ----------

  /** The connections alone, without counters. */
  datatype Population = Population(pending: Pending, live: multiset<Ip>, closing: nat)

  function Forget(s: System): Population {
    Population(s.pending, s.live, s.closing)
  }

  /** Decides by looking at the connections themselves. */
  function IdealNext(l: Limits, p: Population, step: Step): Population
    requires Enabled(p.pending, p.live, p.closing, step)
  {
    match step
    case Accept(ip) => p.(pending := if p.live[ip] < l.maxPerIp then Admitted(ip) else Idle)
    case Acquire =>
      if |p.live| + p.closing < l.maxConnections
      then p.(live := p.live + multiset{p.pending.ip}, pending := Idle)
      else p.(pending := NoPermit(p.pending.ip))
    case GiveUp => p.(pending := Idle)
    case EndGuard(ip) => p.(live := p.live - multiset{ip}, closing := p.closing + 1)
    case EndPermit => p.(closing := p.closing - 1)
  }

  /** Every admission and every refusal is the one that server would make, in
      every interleaving: stale zero entries and refusals change nothing. */
  lemma {:induction false} RefinesCounting(l: Limits, run: seq<System>, steps: seq<Step>, i: nat)
    requires IsRun(l, run, steps) && i < |steps|
    ensures Follows(l, run[i], steps[i], run[i + 1])
    ensures Forget(run[i + 1]) == IdealNext(l, Forget(run[i]), steps[i])
  {
    CountsAreExact(l, run, steps, i);
    var s := run[i];
    assert Follows(l, s, steps[i], run[i + 1]);
    if steps[i].Accept? {
      assert Exact(l, s, steps[i].ip);
    }
  }

  // ---------- What stays in the map ----------

  predicate InUse(s: System, ip: Ip) {
    ip in s.perIp <==> s.live[ip] + InFlight(s.pending, ip) > 0
  }

  ghost predicate NoStaleEntry(s: System) {
    forall ip :: InUse(s, ip)
  }

  /** As long as no accept finds the permits gone, the map holds an entry for
      exactly the addresses that have a connection or an accept in flight: what
      ends is forgotten, and refusals add nothing. */
  lemma {:induction false} EntriesAreInUse(l: Limits, run: seq<System>, steps: seq<Step>, i: nat)
    requires IsRun(l, run, steps) && l.maxPerIp > 0 && i < |run|
    requires forall j | 0 <= j < i :: !steps[j].GiveUp?
    ensures NoStaleEntry(run[i])
  {
    if i > 0 {
      EntriesAreInUse(l, run, steps, i - 1);
      CountsAreExact(l, run, steps, i - 1);
      assert Follows(l, run[i - 1], steps[i - 1], run[i]);
      StepLeavesNoStaleEntry(l, run[i - 1], steps[i - 1]);
    }
  }

  lemma {:induction false} StepLeavesNoStaleEntry(l: Limits, s: System, step: Step)
    requires Inv(l, s) && NoStaleEntry(s) && l.maxPerIp > 0
    requires Enabled(s.pending, s.live, s.closing, step) && !step.GiveUp?
    ensures NoStaleEntry(Next(l, s, step))
  {
    hide InUse, Exact, Next;
    var t := Next(l, s, step);
    forall ip ensures InUse(t, ip) {
      assert InUse(s, ip) && Exact(l, s, ip);
      EntryStaysInUse(l, s, step, ip);
    }
  }

  lemma {:induction false} EntryStaysInUse(l: Limits, s: System, step: Step, ip: Ip)
    requires Exact(l, s, ip) && InUse(s, ip) && l.maxPerIp > 0
    requires Enabled(s.pending, s.live, s.closing, step) && !step.GiveUp?
    ensures InUse(Next(l, s, step), ip)
  {
  }

  /** An accept that finds none leaves its entry behind even if it holds nothing. */
  lemma {:induction false} GivingUpLeavesEntry(l: Limits, s: System)
    requires Inv(l, s) && s.pending.NoPermit?
    ensures var t := Next(l, s, GiveUp);
            s.pending.ip in t.perIp && t.perIp[s.pending.ip] == s.live[s.pending.ip]
  {
    assert Exact(l, s, s.pending.ip);
  }
}
