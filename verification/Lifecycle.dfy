/**
 One run of the engine: probing clients, announcing `started`, ticking and
 announcing once a second, and the `stopped` tail; with the state it persists.

 The environment is a script: who answers, what each second brings, when the
 audit is cancelled, and where the process dies, which may be at any announce or
 between two seconds.
 */
module Lifecycle {
  import opened Wrappers
  import opened Bytes
  import opened HashText
  import opened Goal
  import opened Tick
  import opened Peer

  datatype Identity = Identity(peerId: bytes, key: bytes)

  datatype Announce = Announce(event: AnnounceEvent, identity: Identity, state: PeerState)

  /** What an announce meets: a response (a failure response or not), a transport
      error, or the end of the process. */
  datatype Reply = Answered(failure: bool) | Unreachable | Died

  /** One turn of the main loop's `select!`. */
  datatype Turn = Cancel | Second(moment: Moment, statDue: bool, announceDue: bool, reply: Reply)

  datatype Probe = Probe(identity: Identity, reply: Reply, cancelled: bool)

  /** The environment of a run; `client` is a client known beforehand, `probes`
      what each configured client would meet, `draws` the random numbers of the
      probe order. */
  datatype Script = Script(
    client: Option<nat>, probes: seq<Probe>, draws: seq<nat>, identity: Identity,
    startReply: Reply, turns: seq<Turn>, stopReply: Reply)

  // ---------- Persistence ----------

  /** The audit's database row; a fresh one holds zeros. */
  datatype Row = Row(
    uploaded: i64, downloaded: i64, left: i64, phase: Option<Phase>, completedSent: bool,
    peerId: Option<bytes>, key: Option<bytes>)

  const FRESH_ROW := Row(0, 0, 0, None, false, None, None)

  datatype Resume = Resume(
    state: PeerState, phase: Phase, completedSent: bool, peerId: Option<bytes>, key: Option<bytes>)

  function PeerIdOf(hex: bytes): Option<bytes> {
    if |hex| == INFO_HASH_HEX_LEN && IsHex(hex) then Some(HexBytes(hex)) else None
  }

  predicate Blank(s: PeerState) {
    s.uploaded == 0 && s.downloaded == 0 && s.left == 0
  }

  /** What `start_engine` hands to the run: nothing when the row looks fresh. */
  function Load(row: Row): Option<Resume> {
    var s := PeerState(AsU64(row.uploaded), AsU64(row.downloaded), AsU64(row.left));
    if Blank(s) then None
    else
      Some(Resume(s, if row.phase.Some? then row.phase.value else Leech, row.completedSent,
                  if row.peerId.Some? then PeerIdOf(row.peerId.value) else None, row.key))
  }

  // ---------- A run's state ----------

  datatype Live = Live(state: PeerState, phase: Phase, completedSent: bool, announces: seq<Announce>, row: Row)

  function Saved(l: Live, id: Identity): Row {
    Row(AsI64(l.state.uploaded), AsI64(l.state.downloaded), AsI64(l.state.left),
        Some(l.phase), l.completedSent, Some(HexText(id.peerId)), Some(id.key))
  }

  /** Counters and phase of an audit that has nothing to resume. */
  function Fresh(c: AuditConfig): (PeerState, Phase) {
    var (downloaded, left) := InitialDownload(c.torrentSize, c.startDownloadPct);
    if c.mode.UploadOnly? || left == 0 then (PeerState(0, c.torrentSize, 0), Seed)
    else (PeerState(0, downloaded, left), Leech)
  }

  function Begin(c: AuditConfig, resume: Option<Resume>, row: Row): Live {
    if resume.Some? && !Blank(resume.value.state)
    then Live(resume.value.state, resume.value.phase, resume.value.completedSent, [], row)
    else
      var (state, phase) := Fresh(c);
      Live(state, phase, phase.Seed?, [], row)
  }

  /** A persisted identity is used again; it takes both its parts. */
  function Chosen(resume: Option<Resume>, minted: Identity): Identity {
    if resume.Some? && resume.value.peerId.Some? && resume.value.key.Some?
    then Identity(resume.value.peerId.value, resume.value.key.value)
    else minted
  }

  /** Sends an event; any response is followed by a save. */
  function Sent(l: Live, id: Identity, event: AnnounceEvent, reply: Reply): Live {
    var t := l.(announces := l.announces + [Announce(event, id, l.state)]);
    if reply.Answered? then t.(row := Saved(t, id)) else t
  }

  predicate CompletesNow(l: Live) {
    l.phase.Leech? && l.state.left == 0 && !l.completedSent
  }

  function AfterSecond(c: AuditConfig, e: EngineConfig, id: Identity, l: Live, turn: Turn): Live
    requires turn.Second?
  {
    var ticked := l.(state := Ticked(l.state, l.phase, c, e, turn.moment));
    var noted := if turn.statDue then ticked.(row := Saved(ticked, id)) else ticked;
    if !turn.announceDue then noted
    else if CompletesNow(noted)
    then Sent(noted.(phase := Seed, completedSent := true), id, Completed, turn.reply)
    else Sent(noted, id, NoEvent, turn.reply)
  }

  predicate Dies(turn: Turn) {
    turn.Second? && turn.announceDue && turn.reply.Died?
  }

  predicate GoalStops(c: AuditConfig, l: Live) { EndsRun(l.state, c.goal) }

  /** The main loop; the script running out is the process dying. */
  function Loop(c: AuditConfig, e: EngineConfig, id: Identity, l: Live, turns: seq<Turn>): (Live, bool)
    decreases |turns|
  {
    if turns == [] then (l, false)
    else if turns[0].Cancel? then (l, true)
    else
      var t := AfterSecond(c, e, id, l, turns[0]);
      if Dies(turns[0]) then (t, false)
      else if GoalStops(c, t) then (t, true)
      else Loop(c, e, id, t, turns[1..])
  }

  /** How a run ended. */
  datatype Ending = NoClient | CancelledInProbe | Crashed | Finished

  /** `probes` and `announces` are what was sent before and after a client was
      accepted; `row` is what the database then holds. */
  datatype Outcome = Outcome(probes: seq<Announce>, announces: seq<Announce>, row: Row, ending: Ending)

  /** From `started` to the tail. */
  function Attack(c: AuditConfig, e: EngineConfig, script: Script, row: Row): (Live, Ending) {
    var id := Chosen(Load(row), script.identity);
    var begun := Sent(Begin(c, Load(row), row), id, Started, script.startReply);
    if script.startReply.Died? then (begun, Crashed)
    else
      var (looped, stops) := Loop(c, e, id, begun, script.turns);
      if !stops then (looped, Crashed)
      else
        var stopped := Sent(looped, id, Stopped, script.stopReply);
        if script.stopReply.Died? then (stopped, Crashed) else (stopped.(row := Saved(stopped, id)), Finished)
  }

  // ---------- The probe order ----------

  /** The index drawn for position `i`, any number up to `i`. */
  function Drawn(draws: seq<nat>, i: nat): (j: nat)
    ensures j <= i
  {
    if i < |draws| then draws[i] % (i + 1) else 0
  }

  /** One swap for each position from the last down. */
  function Shuffled(order: seq<nat>, draws: seq<nat>, i: nat): (r: seq<nat>)
    requires i < |order| || i == 0
    ensures |r| == |order|
    decreases i
  {
    if i == 0 then order
    else
      var j := Drawn(draws, i);
      Shuffled(order[i := order[j]][j := order[i]], draws, i - 1)
  }

  /** Whatever is drawn, every client is tried once. */
  lemma {:induction false} ShuffleIsPermutation(order: seq<nat>, draws: seq<nat>, i: nat)
    requires i < |order| || i == 0
    ensures multiset(Shuffled(order, draws, i)) == multiset(order)
    decreases i
  {
    if i > 0 {
      var j := Drawn(draws, i);
      var swapped := order[i := order[j]][j := order[i]];
      assert multiset(swapped) == multiset(order);
      ShuffleIsPermutation(swapped, draws, i - 1);
    }
  }

  function Clients(n: nat): (r: seq<nat>)
    ensures |r| == n && forall i | 0 <= i < n :: r[i] == i
  {
    seq(n, i => i)
  }

  function ProbeOrder(n: nat, draws: seq<nat>): (r: seq<nat>)
    ensures |r| == n && multiset(r) == multiset(Clients(n))
    ensures forall i | 0 <= i < n :: r[i] < n
  {
    var last := if n == 0 then 0 else n - 1;
    var r := Shuffled(Clients(n), draws, last);
    ShuffleIsPermutation(Clients(n), draws, last);
    assert forall i | 0 <= i < n :: r[i] in multiset(r);
    r
  }

  /** What the clients meet, in the order they are tried. */
  function InOrder(probes: seq<Probe>, draws: seq<nat>): (r: seq<Probe>)
    ensures |r| == |probes|
    ensures forall i | 0 <= i < |r| :: r[i] == probes[ProbeOrder(|probes|, draws)[i]]
  {
    var order := ProbeOrder(|probes|, draws);
    seq(|probes|, i requires 0 <= i < |probes| => probes[order[i]])
  }

  /** The announces a probing run sends, and how it comes out: an accepted client
      (`None`) or the run's end. */
  function Probed(c: AuditConfig, probes: seq<Probe>): (seq<Announce>, Option<Ending>) {
    if probes == [] then ([], Some(NoClient))
    else if probes[0].cancelled then ([], Some(CancelledInProbe))
    else
      var sent := [Announce(Started, probes[0].identity, Fresh(c).0)];
      if probes[0].reply.Died? then (sent, Some(Crashed))
      else if probes[0].reply == Answered(false) then (sent, None)
      else
        var (more, result) := Probed(c, probes[1..]);
        (sent + more, result)
  }

  function RunOf(c: AuditConfig, e: EngineConfig, script: Script, row: Row): Outcome {
    var (probes, result) := if script.client.Some? then ([], None) else Probed(c, InOrder(script.probes, script.draws));
    if result.Some? then Outcome(probes, [], row, result.value)
    else
      var (l, ending) := Attack(c, e, script, row);
      Outcome(probes, l.announces, l.row, ending)
  }

  // ---------- The engine ----------

  /** The shuffle, swapping in place. */
  method ShuffleProbeOrder(order: array<nat>, draws: seq<nat>)
    modifies order
    ensures order[..] == Shuffled(old(order[..]), draws, if order.Length == 0 then 0 else order.Length - 1)
  {
    if order.Length == 0 { return; }
    var i := order.Length - 1;
    while i > 0
      invariant 0 <= i < order.Length
      invariant Shuffled(order[..], draws, i) == Shuffled(old(order[..]), draws, order.Length - 1)
    {
      ghost var was := order[..];
      var j := Drawn(draws, i);
      order[i], order[j] := order[j], order[i];
      assert order[..] == was[i := was[j]][j := was[i]];
      i := i - 1;
    }
  }

  /** Tries clients in shuffled order until one is accepted, each under an
      identity of its own. */
  method ProbeClients(c: AuditConfig, probes: seq<Probe>, draws: seq<nat>)
    returns (sent: seq<Announce>, result: Option<Ending>)
    ensures (sent, result) == Probed(c, InOrder(probes, draws))
  {
    hide Fresh, Shuffled;
    var n := |probes|;
    var order := new nat[n](i => i);
    assert order[..] == Clients(n);
    ShuffleProbeOrder(order, draws);
    ghost var all := InOrder(probes, draws);
    assert order[..] == ProbeOrder(n, draws);
    sent := [];
    assert all[0..] == all && [] + Probed(c, all).0 == Probed(c, all).0;
    for i := 0 to n
      invariant order[..] == ProbeOrder(n, draws)
      invariant Probed(c, all) == (sent + Probed(c, all[i..]).0, Probed(c, all[i..]).1)
    {
      var probe := probes[order[..][i]];
      ghost var rest := Probed(c, all[i..]);
      ghost var before := sent;
      assert all[i..][0] == probe && all[i..][1..] == all[i + 1..] && sent + [] == sent;
      if probe.cancelled { return sent, Some(CancelledInProbe); }
      var (state, _) := Fresh(c);
      var one := Announce(Started, probe.identity, state);
      sent := sent + [one];
      match probe.reply {
        case Died => return sent, Some(Crashed);
        case Answered(failure) => if !failure { return sent, None; }
        case Unreachable =>
      }
      assert rest.0 == [one] + Probed(c, all[i + 1..]).0;
      assert before + rest.0 == sent + Probed(c, all[i + 1..]).0;
    }
    assert sent + [] == sent;
    return sent, Some(NoClient);
  }

  /** The state of a run past the probe. */
  class Audit {
    const c: AuditConfig
    const e: EngineConfig
    const id: Identity
    const peer: Counters
    var phase: Phase
    var completedSent: bool
    var announces: seq<Announce>
    var row: Row

    ghost function Now(): Live
      reads this, peer
    {
      Live(peer.state, phase, completedSent, announces, row)
    }

    constructor (c: AuditConfig, e: EngineConfig, resume: Option<Resume>, minted: Identity, row: Row)
      ensures this.c == c && this.e == e && id == Chosen(resume, minted)
      ensures Now() == Begin(c, resume, row) && fresh(peer)
    {
      this.c, this.e, this.id := c, e, Chosen(resume, minted);
      announces, this.row := [], row;
      if resume.Some? && !Blank(resume.value.state) {
        var r := resume.value;
        peer := new Counters(r.state);
        phase, completedSent := r.phase, r.completedSent;
      } else {
        var (state, start) := Fresh(c);
        peer := new Counters(state);
        phase, completedSent := start, start.Seed?;
      }
    }

    method SavePeerState()
      modifies this`row
      ensures Now() == old(Now()).(row := Saved(old(Now()), id))
    {
      var s := peer.state;
      row := Row(AsI64(s.uploaded), AsI64(s.downloaded), AsI64(s.left),
                 Some(phase), completedSent, Some(HexText(id.peerId)), Some(id.key));
    }

    method Send(event: AnnounceEvent, reply: Reply)
      modifies this
      ensures Now() == Sent(old(Now()), id, event, reply)
    {
      hide Saved;
      announces := announces + [Announce(event, id, peer.state)];
      if reply.Answered? { SavePeerState(); }
    }

    method OneSecond(turn: Turn)
      requires turn.Second?
      modifies this, peer
      ensures Now() == AfterSecond(c, e, id, old(Now()), turn)
    {
      hide Saved, Ticked, Sent;
      var _ := peer.Tick(phase, c, e, turn.moment);
      if turn.statDue { SavePeerState(); }
      if turn.announceDue {
        var event := NoEvent;
        if phase == Leech && peer.state.left == 0 && !completedSent {
          completedSent := true;
          phase := Seed;
          event := Completed;
        }
        Send(event, turn.reply);
      }
    }

    /** The main loop: whether it was left for the tail. */
    method MainLoop(turns: seq<Turn>) returns (stops: bool)
      modifies this, peer
      ensures (Now(), stops) == Loop(c, e, id, old(Now()), turns)
    {
      hide AfterSecond, Reached;
      for i := 0 to |turns|
        invariant Loop(c, e, id, old(Now()), turns) == Loop(c, e, id, Now(), turns[i..])
      {
        assert turns[i..][1..] == turns[i + 1..];
        if turns[i].Cancel? { return true; }
        OneSecond(turns[i]);
        if Dies(turns[i]) { return false; }
        if c.goal.reachedAction == Stop && Reached(peer.state, c.goal) { return true; }
      }
      return false;
    }
  }

  /** The whole run. */
  method Run(c: AuditConfig, e: EngineConfig, script: Script, row: Row) returns (o: Outcome)
    ensures o == RunOf(c, e, script, row)
  {
    hide Probed, InOrder, Loop, Saved, Sent, Begin, Load, Chosen;
    var probes: seq<Announce> := [];
    if script.client.None? {
      var result;
      probes, result := ProbeClients(c, script.probes, script.draws);
      if result.Some? { return Outcome(probes, [], row, result.value); }
    }
    var audit := new Audit(c, e, Load(row), script.identity, row);
    audit.Send(Started, script.startReply);
    if script.startReply.Died? { return Outcome(probes, audit.announces, audit.row, Crashed); }
    var stops := audit.MainLoop(script.turns);
    if !stops { return Outcome(probes, audit.announces, audit.row, Crashed); }
    audit.Send(Stopped, script.stopReply);
    if script.stopReply.Died? { return Outcome(probes, audit.announces, audit.row, Crashed); }
    audit.SavePeerState();
    return Outcome(probes, audit.announces, audit.row, Finished);
  }
}
