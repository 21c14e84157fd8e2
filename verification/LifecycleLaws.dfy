/**
 What the tracker sees over whole runs and over chains of runs, whatever the
 environment does.
 */
module LifecycleLaws {
  import opened Wrappers
  import opened Bytes
  import opened HashText
  import opened HashTextLaws
  import opened Goal
  import opened Tick
  import opened Peer
  import opened Lifecycle

  // ---------- Saving and loading ----------

  lemma {:induction false} CastRoundTrip(n: u64)
    ensures AsU64(AsI64(n)) == n
  {
  }

  lemma {:induction false} PeerIdRoundTrip(id: bytes)
    requires |id| == INFO_HASH_LEN
    ensures PeerIdOf(HexText(id)) == Some(id)
  {
    HexSpellings(HexText(id), id);
    assert forall i | 0 <= i < |HexText(id)| :: Lower(HexText(id)[i]) == HexText(id)[i];
  }

  /** Each counter is saved in its own column, as it is while it fits 63 bits. */
  lemma {:induction false} RowHolds(l: Live, id: Identity)
    ensures var row := Saved(l, id);
            && (l.state.uploaded < 0x8000_0000_0000_0000 ==> row.uploaded == l.state.uploaded)
            && (l.state.downloaded < 0x8000_0000_0000_0000 ==> row.downloaded == l.state.downloaded)
            && (l.state.left < 0x8000_0000_0000_0000 ==> row.left == l.state.left)
            && row.phase == Some(l.phase) && row.completedSent == l.completedSent
  {
    hide HexText;
  }

  /** A saved peer id is taken up again exactly when its text spells twenty bytes
      in hex, and only together with a saved key. */
  lemma {:induction false} IdentityTakenUpIff(row: Row, minted: Identity, peerId: bytes, key: bytes)
    requires Load(row).Some? && Identity(peerId, key) != minted
    ensures Chosen(Load(row), minted) == Identity(peerId, key)
            <==> && row.key == Some(key) && |peerId| == 20
                 && row.peerId.Some? && SpellsLower(row.peerId.value, HexText(peerId))
    ensures row.key == None ==> Chosen(Load(row), minted) == minted
  {
    hide IsHex, HexBytes, HexText, SpellsLower;
    if row.peerId.Some? { HexSpellings(row.peerId.value, peerId); TextLength(row.peerId.value, peerId); }
  }

  lemma {:induction false} TextLength(s: bytes, b: bytes)
    ensures SpellsLower(s, HexText(b)) ==> |s| == 2 * |b|
    ensures IsHex(s) ==> |s| == 2 * |HexBytes(s)|
  {
  }

  /** A saved state comes back whole, identity included, unless it is blank. */
  lemma {:induction false} LoadsWhatWasSaved(l: Live, id: Identity)
    requires |id.peerId| == INFO_HASH_LEN
    ensures Load(Saved(l, id)) == if Blank(l.state) then None
                                  else Some(Resume(l.state, l.phase, l.completedSent, Some(id.peerId), Some(id.key)))
  {
    hide PeerIdOf, AsI64, AsU64, HexText;
    CastRoundTrip(l.state.uploaded);
    CastRoundTrip(l.state.downloaded);
    CastRoundTrip(l.state.left);
    PeerIdRoundTrip(id.peerId);
  }

  /** A state that keeps the books is taken for a fresh one exactly when nothing
      was uploaded of an empty torrent. */
  lemma {:induction false} LooksFreshIff(s: PeerState, c: AuditConfig)
    requires Conserved(s, c)
    ensures Blank(s) <==> s.uploaded == 0 && c.torrentSize == 0
  {
  }

  /** A fresh audit has uploaded nothing and seeds exactly when nothing is left;
      a ghost seed has it all, a leecher starting from nothing has all of it left. */
  lemma {:induction false} FreshStart(c: AuditConfig)
    requires c.torrentSize > 0
    ensures var (s, phase) := Fresh(c);
            && Conserved(s, c) && s.uploaded == 0 && (phase.Seed? <==> s.left == 0)
            && (c.mode.UploadOnly? || (c.startDownloadPct >= 100 && c.torrentSize * 100 <= USIZE_MAX) ==> s.left == 0)
            && (c.mode.LeechThenSeed? && c.startDownloadPct == 0 ==> s.downloaded == 0)
  {
    hide InitialDownload;
    InitialShareIff(c.torrentSize, c.startDownloadPct);
  }

  // ---------- The invariant of a run ----------

  /** The books are kept, and seeding means `completed` is behind us. */
  predicate Sound(c: AuditConfig, s: PeerState, phase: Phase, completedSent: bool) {
    Conserved(s, c) && (phase.Seed? <==> completedSent) && (phase.Seed? ==> s.left == 0)
  }

  /** A row is blank, or holds a sound state with an identity. */
  ghost predicate RowOk(c: AuditConfig, row: Row) {
    match Load(row)
    case None => true
    case Some(r) =>
      Sound(c, r.state, r.phase, r.completedSent)
      && r.peerId.Some? && |r.peerId.value| == INFO_HASH_LEN && r.key.Some?
  }

  /** The state a run over this row begins with. */
  function Start(c: AuditConfig, row: Row): Live {
    Begin(c, Load(row), row)
  }

  function Completions(announces: seq<Announce>): nat {
    if announces == [] then 0
    else
      var last := |announces| - 1;
      Completions(announces[..last]) + if announces[last].event.Completed? then 1 else 0
  }

  ghost predicate Falling(announces: seq<Announce>) {
    forall i, j | 0 <= i < j < |announces| :: announces[j].state.left <= announces[i].state.left
  }

  ghost predicate Announceable(c: AuditConfig, id: Identity, a: Announce) {
    && Conserved(a.state, c) && a.identity == id
    && (a.event.Completed? ==> a.state.left == 0)
  }

  /** What the announces of a run look like while it is at `now`. */
  ghost predicate Announced(c: AuditConfig, id: Identity, announces: seq<Announce>, now: PeerState) {
    && Falling(announces)
    && (forall i | 0 <= i < |announces| ::
          Announceable(c, id, announces[i]) && now.left <= announces[i].state.left)
  }

  /** Whatever is saved lags behind memory and was saved by this identity or is
      what the run began with. */
  ghost predicate Trails(c: AuditConfig, id: Identity, l: Live, first: Row) {
    && RowOk(c, l.row)
    && l.state.left <= Start(c, l.row).state.left
    && (Start(c, l.row).completedSent ==> l.completedSent)
    && (Start(c, first).completedSent ==> Start(c, l.row).completedSent)
    && Start(c, l.row).state.left <= Start(c, first).state.left
    && (l.row == first || (Chosen(Load(l.row), id) == id && Load(l.row).Some?))
  }

  ghost predicate Inv(c: AuditConfig, id: Identity, first: Row, l: Live) {
    && Sound(c, l.state, l.phase, l.completedSent)
    && Announced(c, id, l.announces, l.state)
    && Completions(l.announces) == (if l.completedSent && !Start(c, first).completedSent then 1 else 0)
    && (Start(c, first).completedSent ==> l.completedSent)
    && Trails(c, id, l, first)
    && l.state.left <= Start(c, first).state.left
  }

  lemma {:induction false} StartIsSound(c: AuditConfig, row: Row)
    requires RowOk(c, row)
    ensures var l := Start(c, row); Sound(c, l.state, l.phase, l.completedSent)
    ensures Load(row).None? ==> !Blank(Start(c, row).state) || c.torrentSize == 0
  {
    hide InitialDownload;
  }

  lemma {:induction false} StartKeepsInv(c: AuditConfig, id: Identity, row: Row)
    requires RowOk(c, row)
    ensures Inv(c, id, row, Start(c, row))
  {
    StartIsSound(c, row);
  }

  /** Saving a sound state that is not blank. */
  lemma {:induction false} SaveKeepsInv(c: AuditConfig, id: Identity, first: Row, l: Live)
    requires Inv(c, id, first, l) && c.torrentSize > 0 && |id.peerId| == INFO_HASH_LEN
    ensures Inv(c, id, first, l.(row := Saved(l, id)))
    ensures Start(c, Saved(l, id)).state == l.state && Start(c, Saved(l, id)).completedSent == l.completedSent
  {
    hide Load, Saved, Announced, Completions, Fresh;
    LoadsWhatWasSaved(l, id);
    LooksFreshIff(l.state, c);
  }

  lemma {:induction false} CompletionsSnoc(announces: seq<Announce>, a: Announce)
    ensures Completions(announces + [a]) == Completions(announces) + if a.event.Completed? then 1 else 0
  {
    assert (announces + [a])[..|announces|] == announces;
  }

  lemma {:induction false} AnnouncedSnoc(c: AuditConfig, id: Identity, announces: seq<Announce>, a: Announce)
    requires Announced(c, id, announces, a.state) && Announceable(c, id, a)
    ensures Announced(c, id, announces + [a], a.state)
  {
  }

  lemma {:induction false} SentKeepsInv(c: AuditConfig, id: Identity, first: Row, l: Live, event: AnnounceEvent, reply: Reply)
    requires Inv(c, id, first, l) && c.torrentSize > 0 && |id.peerId| == INFO_HASH_LEN && !event.Completed?
    ensures Inv(c, id, first, Sent(l, id, event, reply))
  {
    hide Saved, Announced, Trails, Start, Conserved;
    var a := Announce(event, id, l.state);
    CompletionsSnoc(l.announces, a);
    AnnouncedSnoc(c, id, l.announces, a);
    var t := l.(announces := l.announces + [a]);
    TrailsRow(c, id, l, t, first);
    if reply.Answered? { SaveKeepsInv(c, id, first, t); }
  }

  lemma {:induction false} TrailsRow(c: AuditConfig, id: Identity, l: Live, t: Live, first: Row)
    requires Trails(c, id, l, first) && t.row == l.row && t.state.left <= l.state.left
    requires l.completedSent ==> t.completedSent
    ensures Trails(c, id, t, first)
  {
    hide Start, RowOk, Chosen;
  }

  lemma {:induction false} CompleteKeepsInv(c: AuditConfig, id: Identity, first: Row, l: Live, reply: Reply)
    requires Inv(c, id, first, l) && c.torrentSize > 0 && |id.peerId| == INFO_HASH_LEN && CompletesNow(l)
    ensures Inv(c, id, first, Sent(l.(phase := Seed, completedSent := true), id, Completed, reply))
  {
    hide Saved, Announced, Trails, Start, Conserved;
    var a := Announce(Completed, id, l.state);
    CompletionsSnoc(l.announces, a);
    AnnouncedSnoc(c, id, l.announces, a);
    var t := l.(phase := Seed, completedSent := true, announces := l.announces + [a]);
    TrailsRow(c, id, l, t, first);
    if reply.Answered? { SaveKeepsInv(c, id, first, t); }
  }

  lemma {:induction false} TickKeepsInv(c: AuditConfig, e: EngineConfig, id: Identity, first: Row, l: Live, m: Moment)
    requires Inv(c, id, first, l)
    ensures Inv(c, id, first, l.(state := Ticked(l.state, l.phase, c, e, m)))
  {
    hide Ticked, Start, Trails, Completions;
    TickConserves(l.state, l.phase, c, e, m);
    TrailsRow(c, id, l, l.(state := Ticked(l.state, l.phase, c, e, m)), first);
  }

  lemma {:induction false} SecondKeepsInv(c: AuditConfig, e: EngineConfig, id: Identity, first: Row, l: Live, turn: Turn)
    requires Inv(c, id, first, l) && c.torrentSize > 0 && |id.peerId| == INFO_HASH_LEN && turn.Second?
    ensures Inv(c, id, first, AfterSecond(c, e, id, l, turn))
  {
    hide Ticked, Inv, Saved, Sent;
    var ticked := l.(state := Ticked(l.state, l.phase, c, e, turn.moment));
    TickKeepsInv(c, e, id, first, l, turn.moment);
    var noted := if turn.statDue then ticked.(row := Saved(ticked, id)) else ticked;
    if turn.statDue { SaveKeepsInv(c, id, first, ticked); }
    if turn.announceDue {
      if CompletesNow(noted) {
        CompleteKeepsInv(c, id, first, noted, turn.reply);
      } else {
        SentKeepsInv(c, id, first, noted, NoEvent, turn.reply);
      }
    }
  }

  lemma {:induction false} LoopKeepsInv(c: AuditConfig, e: EngineConfig, id: Identity, first: Row, l: Live, turns: seq<Turn>)
    requires Inv(c, id, first, l) && c.torrentSize > 0 && |id.peerId| == INFO_HASH_LEN
    ensures Inv(c, id, first, Loop(c, e, id, l, turns).0)
    decreases |turns|
  {
    hide Inv, AfterSecond, GoalStops;
    if turns != [] && turns[0].Second? {
      SecondKeepsInv(c, e, id, first, l, turns[0]);
      LoopKeepsInv(c, e, id, first, AfterSecond(c, e, id, l, turns[0]), turns[1..]);
    }
  }

  // ---------- The shape of a run ----------

  /** `started` first, then only regular announces and `completed`. */
  ghost predicate Opening(announces: seq<Announce>) {
    && announces != [] && announces[0].event.Started?
    && forall i | 0 < i < |announces| :: announces[i].event.NoEvent? || announces[i].event.Completed?
  }

  lemma {:induction false} LoopKeepsOpening(c: AuditConfig, e: EngineConfig, id: Identity, l: Live, turns: seq<Turn>)
    requires Opening(l.announces)
    ensures var t := Loop(c, e, id, l, turns).0;
            Opening(t.announces) && t.announces[0] == l.announces[0]
    decreases |turns|
  {
    hide Ticked, Saved, GoalStops;
    if turns != [] && turns[0].Second? {
      LoopKeepsOpening(c, e, id, AfterSecond(c, e, id, l, turns[0]), turns[1..]);
    }
  }

  /** Every run that gets past the probe announces `started` first; one that
      reaches its tail announces `stopped` exactly once, last, and one that
      crashed there did so before or at that announce. Probes only say `started`. */
  lemma {:induction false} StartedFirstStoppedLast(c: AuditConfig, e: EngineConfig, script: Script, row: Row)
    ensures var o := RunOf(c, e, script, row);
            && (forall a | a in o.probes :: a.event.Started? && a.state == Fresh(c).0)
            && (o.announces != [] ==> o.announces[0] == Announce(Started, Chosen(Load(row), script.identity),
                                                                  Start(c, row).state))
            && (o.ending.NoClient? || o.ending.CancelledInProbe? ==> o.announces == [])
            && (o.ending.Finished? ==> o.announces != [])
            && (o.announces != [] ==>
                  var last := |o.announces| - 1;
                  || (!o.ending.Finished? && Opening(o.announces))
                  || (o.announces[last].event.Stopped? && Opening(o.announces[..last])))
  {
    hide Loop, Saved, Fresh, Begin, Chosen;
    ProbesStart(c, InOrder(script.probes, script.draws));
    AttackShape(c, e, script, row);
  }

  lemma {:induction false} ProbesStart(c: AuditConfig, probes: seq<Probe>)
    ensures forall a | a in Probed(c, probes).0 :: a.event.Started? && a.state == Fresh(c).0
    ensures Probed(c, probes).1.Some? ==> !Probed(c, probes).1.value.Finished?
    decreases |probes|
  {
    hide Fresh;
    if probes != [] { ProbesStart(c, probes[1..]); }
  }

  /** The clients are tried one after the other in shuffled order, each at most
      once, up to the first that is accepted. */
  lemma {:induction false} ProbesUpToAccepted(c: AuditConfig, probes: seq<Probe>, draws: seq<nat>, i: nat)
    requires i < |Probed(c, InOrder(probes, draws)).0|
    ensures var sent, order := Probed(c, InOrder(probes, draws)).0, ProbeOrder(|probes|, draws);
            && |sent| <= |probes| && multiset(order) == multiset(Clients(|probes|))
            && sent[i].identity == probes[order[i]].identity
            && (probes[order[i]].reply == Answered(false) ==> i == |sent| - 1)
  {
    hide Probed, InOrder, ProbeOrder;
    ProbesInTurn(c, InOrder(probes, draws), i);
  }

  lemma {:induction false} ProbesInTurn(c: AuditConfig, probes: seq<Probe>, i: nat)
    requires i < |Probed(c, probes).0|
    ensures var sent := Probed(c, probes).0;
            |sent| <= |probes| && sent[i].identity == probes[i].identity
            && (probes[i].reply == Answered(false) ==> i == |sent| - 1)
    decreases |probes|
  {
    hide Fresh;
    if |Probed(c, probes).0| > 1 {
      ProbesInTurn(c, probes[1..], if i == 0 then 0 else i - 1);
    }
  }

  lemma {:induction false} AttackShape(c: AuditConfig, e: EngineConfig, script: Script, row: Row)
    ensures var l := Attack(c, e, script, row).0; var ending := Attack(c, e, script, row).1;
            && l.announces != []
            && l.announces[0] == Announce(Started, Chosen(Load(row), script.identity), Start(c, row).state)
            && (ending.Crashed? || ending.Finished?)
            && var last := |l.announces| - 1;
               || (ending.Crashed? && Opening(l.announces))
               || (l.announces[last].event.Stopped? && Opening(l.announces[..last]))
  {
    hide Loop, Saved, Fresh, Chosen, Load;
    var id := Chosen(Load(row), script.identity);
    var begun := Sent(Start(c, row), id, Started, script.startReply);
    assert begun.announces == [Announce(Started, id, Start(c, row).state)];
    LoopKeepsOpening(c, e, id, begun, script.turns);
    var looped := Loop(c, e, id, begun, script.turns).0;
    var stopped := Sent(looped, id, Stopped, script.stopReply);
    assert stopped.announces[..|stopped.announces| - 1] == looped.announces;
  }

  // ---------- The books of a run ----------

  ghost predicate Runnable(c: AuditConfig, script: Script, row: Row) {
    RowOk(c, row) && c.torrentSize > 0 && |script.identity.peerId| == INFO_HASH_LEN
  }

  /** Whether the next run over `row` begins with `completed` behind it. */
  predicate Done(c: AuditConfig, row: Row) { Start(c, row).completedSent }

  lemma {:induction false} AttackKeepsInv(c: AuditConfig, e: EngineConfig, script: Script, row: Row)
    requires Runnable(c, script, row)
    ensures var id := Chosen(Load(row), script.identity); var l := Attack(c, e, script, row).0;
            && |id.peerId| == INFO_HASH_LEN && Inv(c, id, row, l)
            && (Attack(c, e, script, row).1.Finished? ==>
                  Start(c, l.row).state == l.state && Start(c, l.row).completedSent == l.completedSent
                  && l.announces[|l.announces| - 1].state == l.state)
  {
    hide Inv, Loop, Saved, Begin, Start;
    AttackShape(c, e, script, row);
    var id := Chosen(Load(row), script.identity);
    assert |id.peerId| == INFO_HASH_LEN;
    StartKeepsInv(c, id, row);
    BeginIsStart(c, row);
    var begun := Sent(Begin(c, Load(row), row), id, Started, script.startReply);
    SentKeepsInv(c, id, row, Start(c, row), Started, script.startReply);
    LoopKeepsInv(c, e, id, row, begun, script.turns);
    var looped := Loop(c, e, id, begun, script.turns).0;
    SentKeepsInv(c, id, row, looped, Stopped, script.stopReply);
    var stopped := Sent(looped, id, Stopped, script.stopReply);
    SaveKeepsInv(c, id, row, stopped);
  }

  lemma {:induction false} BeginIsStart(c: AuditConfig, row: Row)
    ensures Start(c, row) == Begin(c, Load(row), row)
  {
  }

  /** Every run keeps the books: each announce shows downloaded and left adding
      up to the torrent, `left` only falls, `completed` is said only with nothing
      left, and what is saved is sound again and never looks fresh. */
  lemma {:induction false} RunKeepsBooks(c: AuditConfig, e: EngineConfig, script: Script, row: Row)
    requires Runnable(c, script, row)
    ensures var o := RunOf(c, e, script, row); var id := Chosen(Load(row), script.identity);
            && RowOk(c, o.row) && (o.row == row || (Load(o.row).Some? && Chosen(Load(o.row), id) == id))
            && Falling(o.announces) && (forall i | 0 <= i < |o.announces| :: Announceable(c, id, o.announces[i]))
            && (forall i | 0 <= i < |o.announces| :: o.announces[i].state.left <= Start(c, row).state.left)
            && Start(c, o.row).state.left <= Start(c, row).state.left
            && (o.ending.Finished? ==>
                  o.announces != [] && o.announces[|o.announces| - 1].state == Start(c, o.row).state)
  {
    hide Loop, Saved, Begin, Start, Attack, Sound, Announceable, Load, Chosen;
    StartedFirstStoppedLast(c, e, script, row);
    AttackKeepsInv(c, e, script, row);
  }

  /** A run says `completed` at most once, and not if that was done before. What
      the row then tells: a finished run forgets nothing, any run at most that. */
  lemma {:induction false} RunCompletesOnce(c: AuditConfig, e: EngineConfig, script: Script, row: Row)
    requires Runnable(c, script, row)
    ensures var o := RunOf(c, e, script, row);
            && Completions(o.announces) <= (if Done(c, row) then 0 else 1)
            && (Done(c, row) ==> Done(c, o.row))
            && (Done(c, o.row) ==> Done(c, row) || Completions(o.announces) == 1)
            && (o.ending.Finished? && Completions(o.announces) == 1 ==> Done(c, o.row))
  {
    hide Loop, Saved, Begin, Attack, Sound, Announced, RowOk, Load, Chosen, Start;
    StartedFirstStoppedLast(c, e, script, row);
    AttackKeepsInv(c, e, script, row);
  }
}
