/**
 Finding a client: which one is accepted, what was sent on the way, and that the
 shuffle leaves no order out.
 */
module ProbeLaws {
  import opened Wrappers
  import opened Bytes
  import opened Tick
  import opened Peer
  import opened Lifecycle

  // ---------- How probing comes out ----------

  /** A client tried in vain: refused with a failure response, or not reached. */
  predicate PassedOver(p: Probe) {
    !p.cancelled && (p.reply == Answered(true) || p.reply == Unreachable)
  }

  /** Probing goes on exactly while clients are passed over. What it stops at
      decides how it comes out, and every client tried was sent one announce, in
      order; a cancelled one was not tried. */
  lemma {:induction false} ProbingStopsAt(c: AuditConfig, probes: seq<Probe>) returns (k: nat)
    ensures k <= |probes| && forall i | 0 <= i < k :: PassedOver(probes[i])
    ensures var (sent, result) := Probed(c, probes);
            && (forall i | 0 <= i < |sent| ::
                  i < |probes| && sent[i] == Announce(Started, probes[i].identity, Fresh(c).0))
            && if k == |probes| then |sent| == k && result == Some(NoClient)
               else if probes[k].cancelled then |sent| == k && result == Some(CancelledInProbe)
               else if probes[k].reply == Died then |sent| == k + 1 && result == Some(Crashed)
               else probes[k].reply == Answered(false) && |sent| == k + 1 && result == None
    decreases |probes|
  {
    hide Fresh;
    k := 0;
    if probes != [] && PassedOver(probes[0]) {
      k := ProbingStopsAt(c, probes[1..]);
      k := k + 1;
      assert forall i | 1 <= i < |probes| :: probes[1..][i - 1] == probes[i];
    }
  }

  /** A client is accepted if and only if some client answers without a failure
      and all before it are passed over; there is none if and only if all are. */
  lemma {:induction false} AcceptedIff(c: AuditConfig, probes: seq<Probe>)
    ensures Probed(c, probes).1 == None
            <==> exists k | 0 <= k < |probes| ::
                   && !probes[k].cancelled && probes[k].reply == Answered(false)
                   && forall i | 0 <= i < k :: PassedOver(probes[i])
    ensures Probed(c, probes).1 == Some(NoClient) <==> forall p | p in probes :: PassedOver(p)
  {
    hide Fresh, Probed;
    var k := ProbingStopsAt(c, probes);
    if k < |probes| { assert probes[k] in probes; }
  }

  // ---------- The shuffle reaches every order ----------

  /** Positions above `i` are done with, and draws beyond `i` not looked at. */
  lemma {:induction false} LaterDraws(order: seq<nat>, draws: seq<nat>, more: seq<nat>, i: nat)
    requires i < |order| && i < |draws|
    ensures Shuffled(order, draws + more, i) == Shuffled(order, draws, i)
    ensures forall k | i < k < |order| :: Shuffled(order, draws, i)[k] == order[k]
    decreases i
  {
    if i > 0 {
      assert (draws + more)[i] == draws[i];
      var j := Drawn(draws, i);
      LaterDraws(order[i := order[j]][j := order[i]], draws, more, i - 1);
    }
  }

  /** What is due at position `i` still stands at or below it. */
  lemma {:induction false} StandsBelow(order: seq<nat>, target: seq<nat>, i: nat) returns (j: nat)
    requires i < |order| == |target| && multiset(target) == multiset(order) && target[i + 1..] == order[i + 1..]
    ensures j <= i && order[j] == target[i]
  {
    var x, head, due := target[i], order[..i + 1], target[..i + 1];
    assert order == head + order[i + 1..] && target == due + target[i + 1..];
    assert multiset(order)[x] == multiset(head)[x] + multiset(order[i + 1..])[x];
    assert multiset(target)[x] == multiset(due)[x] + multiset(target[i + 1..])[x];
    assert due[i] == x && x in due && x in head;
    j :| 0 <= j < |head| && head[j] == target[i];
  }

  lemma {:induction false} Swapped(order: seq<nat>, target: seq<nat>, i: nat, j: nat)
    requires j <= i < |order| == |target| && order[j] == target[i] && target[i + 1..] == order[i + 1..]
    ensures var swapped := order[i := order[j]][j := order[i]];
            multiset(swapped) == multiset(order) && target[i..] == swapped[i..]
  {
    var swapped := order[i := order[j]][j := order[i]];
    forall k | i <= k < |order| ensures target[k] == swapped[k] {
      if k > i { assert target[i + 1..][k - i - 1] == order[i + 1..][k - i - 1]; }
    }
  }

  lemma {:induction false} NothingSwapped(order: seq<nat>, draws: seq<nat>)
    requires order != []
    ensures Shuffled(order, draws, 0) == order
  {
  }

  lemma {:induction false} SwapFirst(order: seq<nat>, draws: seq<nat>, i: nat, j: nat)
    requires j <= i < |order| && 0 < i < |draws| && draws[i] == j
    ensures Shuffled(order, draws, i) == Shuffled(order[i := order[j]][j := order[i]], draws, i - 1)
  {
    hide Drawn;
    DrawnAsIs(draws, i, j);
  }

  lemma {:induction false} DrawnAsIs(draws: seq<nat>, i: nat, j: nat)
    requires j <= i < |draws| && draws[i] == j
    ensures Drawn(draws, i) == j
  {
    hide Shuffled;
  }

  /** For every rearrangement of the clients there are draws that yield it. */
  lemma {:induction false} EveryOrderIsDrawn(order: seq<nat>, target: seq<nat>, i: nat) returns (draws: seq<nat>)
    requires i < |order| == |target| && multiset(target) == multiset(order) && target[i + 1..] == order[i + 1..]
    ensures |draws| == i + 1 && Shuffled(order, draws, i) == target
    decreases i
  {
    hide Shuffled;
    var j := StandsBelow(order, target, i);
    if i == 0 {
      NothingSwapped(order, [0]);
      draws := [0];
      assert order == [order[0]] + order[1..] && target == [target[0]] + target[1..];
    } else {
      Swapped(order, target, i, j);
      var rest := EveryOrderIsDrawn(order[i := order[j]][j := order[i]], target, i - 1);
      draws := rest + [j];
      SwapFirst(order, draws, i, j);
      LaterDraws(order[i := order[j]][j := order[i]], rest, [j], i - 1);
    }
  }

  /** So every order of the clients may be the one they are tried in. */
  lemma {:induction false} AnyOrderMayBeTried(target: seq<nat>) returns (draws: seq<nat>)
    requires multiset(target) == multiset(Clients(|target|))
    ensures ProbeOrder(|target|, draws) == target
  {
    draws := [];
    var n := |target|;
    if n > 0 { draws := EveryOrderIsDrawn(Clients(n), target, n - 1); }
  }

  // ---------- A row that tells no phase ----------

  /** Counters saved without a phase are resumed leeching; with nothing left, the
      first announce that comes due then says `completed`. */
  lemma {:induction false} ResumesLeeching(c: AuditConfig, e: EngineConfig, id: Identity, row: Row, turn: Turn)
    requires row.phase == None && !row.completedSent && Load(row).Some?
    requires turn.Second? && turn.announceDue && row.left == 0
    ensures var l := Begin(c, Load(row), row); var t := AfterSecond(c, e, id, l, turn);
            && |t.announces| == 1 && t.announces[0].event == Completed && t.announces[0].state.left == 0
            && t.phase == Seed && t.completedSent
  {
    hide Saved, PerTick, UploadRate, DownloadRate;
  }
}
