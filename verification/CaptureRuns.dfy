/**
 Capture sessions under every interleaving of announces, peer connections and
 removals.

 A connection first looks up a session by info hash (several sessions may share
 one), later offers its handshake, and only if that is recorded goes on to
 write. Each lock region is one step. A connection's record of what it has sent
 so far is kept beside it, and every fingerprint is proved to be a function of
 the first announce and of one connection.
 */
module CaptureRuns {
  import opened Wrappers
  import opened Bytes
  import opened ExtHandshake
  import opened Capture

  /** Where a connection stands: session found, handshake recorded, or over
      (`marked` when it told the session so). */
  datatype Phase = Found | Listening | Over(marked: bool)

  /** A connection and what it has sent; `gap` is the whole seconds between its
      first two keepalives. */
  datatype Conn = Conn(
    token: Token, reserved: bytes, peerId: bytes, phase: Phase, passed: bool,
    exts: seq<Fields>, heard: seq<bytes>, keepalives: nat, gap: nat)

  datatype System = System(
    sessions: Sessions, used: set<Token>, announces: map<Token, seq<AnnounceData>>, conns: seq<Conn>)

  datatype Step =
    | Start(token: Token, infoHash: bytes)
    | Announce(token: Token, data: AnnounceData)
    | Connect(token: Token, infoHash: bytes, reserved: bytes, peerId: bytes)
    | OfferHandshake(conn: nat)
    | HearExt(conn: nat, fields: Fields)
    | HearMessage(conn: nat, name: bytes)
    | HearKeepalive(conn: nat, elapsed: nat)
    | End(conn: nat, mark: bool)
    | Remove(token: Token)

  /** Tokens are minted fresh; only a recorded connection writes. */
  predicate Enabled(s: System, step: Step) {
    match step
    case Start(t, _) => t !in s.used
    case Announce(_, _) => true
    case Connect(t, hash, _, _) => t in s.sessions && s.sessions[t].infoHash == hash
    case OfferHandshake(c) => c < |s.conns| && s.conns[c].phase.Found?
    case HearExt(c, _) => c < |s.conns| && s.conns[c].phase.Listening?
    case HearMessage(c, _) => c < |s.conns| && s.conns[c].phase.Listening?
    case HearKeepalive(c, _) => c < |s.conns| && s.conns[c].phase.Listening?
    case End(c, _) => c < |s.conns| && s.conns[c].phase.Listening?
    case Remove(_) => true
  }

  /** The cadence is reported once, at the second keepalive, if it is not zero. */
  predicate Reports(c: Conn, elapsed: nat) {
    c.keepalives == 1 && elapsed > 0
  }

  function NextSessions(s: System, step: Step): Sessions
    requires Enabled(s, step)
  {
    match step
    case Start(t, hash) => s.sessions[t := Opened(hash)]
    case Announce(t, data) => AfterAnnounce(s.sessions, t, data)
    case Connect(_, _, _, _) => s.sessions
    case OfferHandshake(c) => AfterHandshake(s.sessions, s.conns[c].token, s.conns[c].reserved, s.conns[c].peerId)
    case HearExt(c, e) => AfterExt(s.sessions, s.conns[c].token, e)
    case HearMessage(c, name) => AfterMessage(s.sessions, s.conns[c].token, name)
    case HearKeepalive(c, elapsed) =>
      if Reports(s.conns[c], elapsed) then AfterKeepalive(s.sessions, s.conns[c].token, elapsed) else s.sessions
    case End(c, mark) => if mark then AfterEnd(s.sessions, s.conns[c].token) else s.sessions
    case Remove(t) => s.sessions - {t}
  }

  /** The connection a step belongs to, afterwards. */
  function NextConn(s: System, step: Step): Conn
    requires Enabled(s, step)
    requires step.OfferHandshake? || step.HearExt? || step.HearMessage? || step.HearKeepalive? || step.End?
  {
    var c := s.conns[step.conn];
    match step
    case OfferHandshake(_) =>
      if TakesHandshake(s.sessions, c.token) then c.(phase := Listening, passed := true)
      else c.(phase := Over(false))
    case HearExt(_, e) => c.(exts := c.exts + [e])
    case HearMessage(_, name) => c.(heard := c.heard + [name])
    case HearKeepalive(_, elapsed) =>
      c.(keepalives := c.keepalives + 1, gap := if c.keepalives == 1 then elapsed else c.gap)
    case End(_, mark) => c.(phase := Over(mark))
  }

  function History(s: System, t: Token): seq<AnnounceData> {
    if t in s.announces then s.announces[t] else []
  }

  function Next(s: System, step: Step): (r: System)
    requires Enabled(s, step)
    ensures r.sessions == NextSessions(s, step)
  {
    var m := NextSessions(s, step);
    match step
    case Start(t, _) => s.(sessions := m, used := s.used + {t}, announces := s.announces[t := []])
    case Announce(t, data) => s.(sessions := m, announces := s.announces[t := History(s, t) + [data]])
    case Connect(t, _, reserved, peerId) =>
      s.(conns := s.conns + [Conn(t, reserved, peerId, Found, false, [], [], 0, 0)])
    case Remove(t) => s.(sessions := m)
    case _ => s.(sessions := m, conns := s.conns[step.conn := NextConn(s, step)])
  }

  const INITIAL := System(map[], {}, map[], [])

  ghost predicate Follows(s: System, step: Step, t: System) {
    Enabled(s, step) && t == Next(s, step)
  }

  ghost predicate IsRun(run: seq<System>, steps: seq<Step>) {
    && |run| == |steps| + 1 && run[0] == INITIAL
    && forall i {:trigger steps[i]} | 0 <= i < |steps| :: Follows(run[i], steps[i], run[i + 1])
  }

  // ---------- What a fingerprint should say ----------

  function AnnounceOf(history: seq<AnnounceData>): AnnounceSide {
    if history == [] then NO_ANNOUNCE else FromAnnounce(history[0])
  }

  /** Extension handshakes in order, until one has locked the fields. */
  function ExtOf(exts: seq<Fields>): Fields {
    if exts == [] then NO_EXT
    else
      var before := ExtOf(exts[..|exts| - 1]);
      if Locked(before) then before else Overlay(before, exts[|exts| - 1])
  }

  function FirstTen(names: seq<bytes>): seq<bytes> {
    if |names| <= MAX_CAPTURE_MESSAGES then names else names[..MAX_CAPTURE_MESSAGES]
  }

  /** What one connection alone has sent. */
  function WireOf(c: Conn): WireSide {
    WireSide(Some(c.reserved), Some(c.peerId), ExtOf(c.exts),
             if c.heard == [] then None else Some(FirstTen(c.heard)),
             if c.gap > 0 then Some(c.gap) else if c.phase == Over(true) then Some(0) else None)
  }

  predicate Winner(c: Conn, t: Token) {
    c.passed && c.token == t
  }

  // ---------- The invariant ----------

  ghost predicate ConnOk(s: System, c: Conn) {
    && c.token in s.used
    && (c.phase.Listening? ==> c.passed)
    && (c.phase.Found? ==> !c.passed && c.exts == [] && c.heard == [] && c.keepalives == 0)
    && (c.keepalives < 2 ==> c.gap == 0)
  }

  /** `wire` is empty, or what the one recorded connection of `t` has sent. */
  ghost predicate FromWinner(conns: seq<Conn>, t: Token, wire: WireSide) {
    if exists i :: 0 <= i < |conns| && Winner(conns[i], t)
    then forall i | 0 <= i < |conns| && Winner(conns[i], t) :: wire == WireOf(conns[i])
    else wire == NO_WIRE
  }

  /** The session of `t` tells its announces and its one connection, if any. */
  ghost predicate Explained(s: System, t: Token)
    requires t in s.sessions
  {
    && t in s.used
    && s.sessions[t].announce == AnnounceOf(History(s, t))
    && FromWinner(s.conns, t, s.sessions[t].wire)
    && (s.sessions[t].status.WaitingForAnnounce? || s.sessions[t].status.AnnounceCaptured?
        || s.sessions[t].wire.reservedBytes.Some?)
    && (s.sessions[t].status.WaitingForAnnounce?
        <==> s.sessions[t].announce.peerId.None? && s.sessions[t].wire.reservedBytes.None?)
  }

  ghost predicate OneWinner(s: System) {
    forall i, j {:trigger s.conns[i], s.conns[j]} | 0 <= i < |s.conns| && 0 <= j < |s.conns| ::
      s.conns[i].passed && s.conns[j].passed && s.conns[i].token == s.conns[j].token ==> i == j
  }

  ghost predicate Inv(s: System) {
    && (forall i | 0 <= i < |s.conns| :: ConnOk(s, s.conns[i]))
    && OneWinner(s)
    && (forall t | t in s.sessions :: Explained(s, t))
  }

  // ---------- What a connection sends is what its session shows ----------

  lemma {:induction false} ExtSnoc(exts: seq<Fields>, e: Fields)
    ensures ExtOf(exts + [e]) == if Locked(ExtOf(exts)) then ExtOf(exts) else Overlay(ExtOf(exts), e)
  {
    assert (exts + [e])[..|exts|] == exts;
  }

  lemma {:induction false} FirstTenSnoc(heard: seq<bytes>, name: bytes)
    ensures FirstTen(heard + [name]) == Noted(if heard == [] then None else Some(FirstTen(heard)), name)
  {
    assert heard == [] ==> heard + [name] == [name];
    assert |heard| >= MAX_CAPTURE_MESSAGES
           ==> (heard + [name])[..MAX_CAPTURE_MESSAGES] == heard[..MAX_CAPTURE_MESSAGES];
  }

  predicate OfConn(step: Step) {
    step.OfferHandshake? || step.HearExt? || step.HearMessage? || step.HearKeepalive? || step.End?
  }

  /** A recorded connection's step changes its session the way it changes what
      the connection has sent. */
  lemma {:induction false} WinnerStep(s: System, step: Step)
    requires Enabled(s, step) && OfConn(step) && ConnOk(s, s.conns[step.conn])
    requires var c := s.conns[step.conn];
             c.token in s.sessions
             && s.sessions[c.token].wire == if step.OfferHandshake? then NO_WIRE else WireOf(c)
    ensures var c := s.conns[step.conn];
            c.token in NextSessions(s, step) && Winner(NextConn(s, step), c.token)
            && NextSessions(s, step)[c.token].wire == WireOf(NextConn(s, step))
            && NextSessions(s, step)[c.token].announce == s.sessions[c.token].announce
  {
    hide Noted, FirstTen, Overlay, Locked;
    var c := s.conns[step.conn];
    match step
    case HearExt(_, e) => ExtSnoc(c.exts, e);
    case HearMessage(_, name) => FirstTenSnoc(c.heard, name);
    case _ =>
  }

  /** A step touches no session but its own. */
  lemma {:induction false} OtherSessions(s: System, step: Step, t: Token)
    requires Enabled(s, step)
    requires (step.Start? || step.Announce? || step.Remove?) ==> step.token != t
    requires OfConn(step) ==> s.conns[step.conn].token != t
    ensures t in NextSessions(s, step) <==> t in s.sessions
    ensures t in s.sessions ==> NextSessions(s, step)[t] == s.sessions[t]
    ensures History(Next(s, step), t) == History(s, t)
  {
  }

  lemma {:induction false} NoWinnerYet(s: System, t: Token)
    requires Inv(s)
    ensures TakesHandshake(s.sessions, t)
            ==> s.sessions[t].wire == NO_WIRE && forall i | 0 <= i < |s.conns| :: !Winner(s.conns[i], t)
  {
    if TakesHandshake(s.sessions, t) {
      assert Explained(s, t);
      assert forall i | 0 <= i < |s.conns| && Winner(s.conns[i], t) :: s.sessions[t].wire == WireOf(s.conns[i]);
    }
  }

  /** Changing a connection of another session, or one never recorded, or adding
      one, leaves what `t` should show. */
  lemma {:induction false} SameWinner(before: seq<Conn>, after: seq<Conn>, t: Token, wire: WireSide)
    requires FromWinner(before, t, wire) && |before| <= |after|
    requires forall i | 0 <= i < |after| ::
      if i < |before| && Winner(before[i], t) then after[i] == before[i] else !Winner(after[i], t)
    ensures FromWinner(after, t, wire)
  {
    hide WireOf;
    if i :| 0 <= i < |before| && Winner(before[i], t) {
      assert Winner(after[i], t);
      forall j | 0 <= j < |after| && Winner(after[j], t) ensures wire == WireOf(after[j]) {
        assert Winner(before[j], t);
      }
    }
  }

  /** The only recorded connection of `t` is at `c`. */
  lemma {:induction false} NewWire(conns: seq<Conn>, c: nat, t: Token, wire: WireSide)
    requires c < |conns| && Winner(conns[c], t) && wire == WireOf(conns[c])
    requires forall i | 0 <= i < |conns| && Winner(conns[i], t) :: i == c
    ensures FromWinner(conns, t, wire)
  {
    hide WireOf, Winner;
  }

  lemma {:induction false} OwnStepExplained(s: System, step: Step)
    requires Inv(s) && Enabled(s, step) && OfConn(step) && s.conns[step.conn].token in Next(s, step).sessions
    ensures Explained(Next(s, step), s.conns[step.conn].token)
  {
    hide WireOf, FromWinner, AnnounceOf;
    var c, t := s.conns[step.conn], s.conns[step.conn].token;
    assert ConnOk(s, c) && Explained(s, t);
    NoWinnerYet(s, t);
    var after := Next(s, step).conns;
    if step.OfferHandshake? && !TakesHandshake(s.sessions, t) {
      SameWinner(s.conns, after, t, s.sessions[t].wire);
    } else {
      if !step.OfferHandshake? { WinnerShows(s, step.conn); }
      WinnerStep(s, step);
      NewWire(after, step.conn, t, Next(s, step).sessions[t].wire);
    }
  }

  lemma {:induction false} WinnerShows(s: System, c: nat)
    requires Inv(s) && c < |s.conns| && s.conns[c].passed && s.conns[c].token in s.sessions
    ensures s.sessions[s.conns[c].token].wire == WireOf(s.conns[c])
  {
    hide WireOf;
    assert Explained(s, s.conns[c].token) && Winner(s.conns[c], s.conns[c].token);
  }

  lemma {:induction false} OtherStepExplained(s: System, step: Step, t: Token)
    requires Inv(s) && Enabled(s, step) && t in Next(s, step).sessions
    requires OfConn(step) ==> s.conns[step.conn].token != t
    ensures Explained(Next(s, step), t)
  {
    hide WireOf, FromWinner, OneWinner;
    var after := Next(s, step).conns;
    if (step.Start? || step.Announce? || step.Remove?) && step.token == t {
      if step.Start? { NeverUsed(s, t); }
    } else {
      OtherSessions(s, step, t);
      assert Explained(s, t);
      SameWinner(s.conns, after, t, s.sessions[t].wire);
    }
  }

  lemma {:induction false} NeverUsed(s: System, t: Token)
    requires Inv(s) && t !in s.used
    ensures FromWinner(s.conns, t, NO_WIRE)
  {
    hide WireOf, Explained, OneWinner;
    assert forall i | 0 <= i < |s.conns| :: ConnOk(s, s.conns[i]);
  }

  lemma {:induction false} StepKeepsConns(s: System, step: Step)
    requires Inv(s) && Enabled(s, step)
    ensures forall i | 0 <= i < |Next(s, step).conns| :: ConnOk(Next(s, step), Next(s, step).conns[i])
    ensures OneWinner(Next(s, step))
  {
    hide WireOf, NextSessions, AnnounceOf, FromWinner;
    if OfConn(step) { assert ConnOk(s, s.conns[step.conn]); }
    if step.Connect? { assert Explained(s, step.token); }
    if step.OfferHandshake? { NoWinnerYet(s, s.conns[step.conn].token); }
  }

  lemma {:induction false} StepKeepsInv(s: System, step: Step)
    requires Inv(s) && Enabled(s, step)
    ensures Inv(Next(s, step))
  {
    hide Explained, ConnOk, OneWinner, Next;
    StepKeepsConns(s, step);
    forall t | t in Next(s, step).sessions ensures Explained(Next(s, step), t) {
      if OfConn(step) && s.conns[step.conn].token == t {
        OwnStepExplained(s, step);
      } else {
        OtherStepExplained(s, step, t);
      }
    }
  }

  lemma {:induction false} RunKeepsInv(run: seq<System>, steps: seq<Step>, i: nat)
    requires IsRun(run, steps) && i < |run|
    ensures Inv(run[i])
  {
    hide Next, Inv;
    if i > 0 {
      RunKeepsInv(run, steps, i - 1);
      assert Follows(run[i - 1], steps[i - 1], run[i]);
      StepKeepsInv(run[i - 1], steps[i - 1]);
    } else {
      InitialInv();
    }
  }

  lemma {:induction false} InitialInv()
    ensures Inv(INITIAL)
  {
  }

  // ---------- Main results ----------

  /** In every interleaving a session's fingerprint is its first announce and the
      whole of what a single connection sent: no connection but one is ever
      recorded for a session, and nothing of another one shows. */
  lemma {:induction false} NoMixing(run: seq<System>, steps: seq<Step>, i: nat, t: Token)
    requires IsRun(run, steps) && i < |run| && t in run[i].sessions
    ensures run[i].sessions[t].announce == AnnounceOf(History(run[i], t))
    ensures FromWinner(run[i].conns, t, run[i].sessions[t].wire)
    ensures forall c, d | 0 <= c < |run[i].conns| && 0 <= d < |run[i].conns| ::
              Winner(run[i].conns[c], t) && Winner(run[i].conns[d], t) ==> c == d
  {
    hide AnnounceOf, FromWinner;
    RunKeepsInv(run, steps, i);
    assert Explained(run[i], t);
  }

  /** The announce fields of any session are, one by one, those of the first
      announce made to it, and empty before there was one. */
  lemma {:induction false} AnnounceFieldsAre(run: seq<System>, steps: seq<Step>, i: nat, t: Token)
    requires IsRun(run, steps) && i < |run| && t in run[i].sessions
    ensures var a, history := run[i].sessions[t].announce, History(run[i], t);
            if history == [] then
              a.peerId.None? && a.userAgent.None? && a.queryParamOrder.None?
              && a.rawQuery.None? && a.numwant.None? && a.httpHeaders.None?
            else
              && a.peerId == Some(history[0].peerId) && a.userAgent == Some(history[0].userAgent)
              && a.queryParamOrder == Some(history[0].queryParamOrder) && a.rawQuery == Some(history[0].rawQuery)
              && a.numwant == history[0].numwant && a.httpHeaders == Some(history[0].httpHeaders)
  {
    hide FromWinner;
    NoMixing(run, steps, i, t);
  }

  /** The wire fields of a session are, one by one, what its recorded connection
      has sent: its handshake, its first ten messages in order, and the gap between
      its first two keepalives, or zero if it ended without one. */
  lemma {:induction false} WireFieldsAre(run: seq<System>, steps: seq<Step>, i: nat, c: nat)
    requires IsRun(run, steps) && i < |run| && c < |run[i].conns| && run[i].conns[c].passed
    requires run[i].conns[c].token in run[i].sessions
    ensures var conn := run[i].conns[c]; var w := run[i].sessions[conn.token].wire;
            && w.reservedBytes == Some(conn.reserved) && w.handshakePeerId == Some(conn.peerId)
            && (w.messageOrder.None? <==> conn.heard == [])
            && (w.messageOrder.Some? ==>
                  var n := if |conn.heard| < 10 then |conn.heard| else 10; w.messageOrder.value == conn.heard[..n])
            && (conn.gap > 0 ==> w.keepaliveSecs == Some(conn.gap))
            && (conn.gap == 0 ==> w.keepaliveSecs == if conn.phase == Over(true) then Some(0) else None)
  {
    hide Explained, OneWinner, ExtOf;
    RunKeepsInv(run, steps, i);
    WinnerShows(run[i], c);
    var heard := run[i].conns[c].heard;
    assert heard[..|heard|] == heard;
  }

  predicate KeptIfSome<T(==)>(a: Option<T>, b: Option<T>) {
    a.Some? ==> a == b
  }

  predicate StillSome<T>(a: Option<T>, b: Option<T>) {
    a.Some? ==> b.Some?
  }

  /** No extension field goes back to `None`; none changes once they are locked. */
  predicate ExtGrows(f: Fields, g: Fields) {
    && (Locked(f) ==> f == g)
    && StillSome(f.vString, g.vString) && StillSome(f.mDict, g.mDict) && StillSome(f.reqq, g.reqq)
    && StillSome(f.encryptionPreferred, g.encryptionPreferred) && StillSome(f.uploadOnly, g.uploadOnly)
    && StillSome(f.completeAgo, g.completeAgo) && StillSome(f.yourip, g.yourip)
    && StillSome(f.listenPort, g.listenPort) && StillSome(f.metadataSize, g.metadataSize)
    && StillSome(f.ipv4, g.ipv4) && StillSome(f.ipv6, g.ipv6) && StillSome(f.shareMode, g.shareMode)
  }

  /** Announce and handshake fields stay as first set, the message list only
      grows at its end, and the keepalive figure is set at most once. */
  predicate Grows(a: Session, b: Session) {
    && (a.announce == NO_ANNOUNCE || a.announce == b.announce)
    && KeptIfSome(a.wire.reservedBytes, b.wire.reservedBytes)
    && KeptIfSome(a.wire.handshakePeerId, b.wire.handshakePeerId)
    && ExtGrows(a.wire.ext, b.wire.ext)
    && (a.wire.messageOrder.Some? ==>
          b.wire.messageOrder.Some? && a.wire.messageOrder.value <= b.wire.messageOrder.value)
    && KeptIfSome(a.wire.keepaliveSecs, b.wire.keepaliveSecs)
  }

  lemma {:induction false} StepGrows(s: System, step: Step, t: Token)
    requires Inv(s) && Enabled(s, step) && t in s.sessions && t in NextSessions(s, step)
    ensures Grows(s.sessions[t], NextSessions(s, step)[t])
  {
    hide WireOf, FromWinner, OneWinner, Overlay, AfterExt, AfterHandshake, AfterMessage, AfterEnd;
    assert Explained(s, t);
    if OfConn(step) && s.conns[step.conn].token == t {
      NoWinnerYet(s, t);
      ReportsOnce(s, step);
      OwnGrows(s, step);
    } else if (step.Announce? || step.Remove? || step.Start?) && step.token == t {
      GrowsRefl(s.sessions[t]);
    } else {
      OtherSessions(s, step, t);
      GrowsRefl(s.sessions[t]);
    }
  }

  lemma {:induction false} OwnGrows(s: System, step: Step)
    requires Enabled(s, step) && OfConn(step) && s.conns[step.conn].token in s.sessions
    requires step.HearKeepalive? && Reports(s.conns[step.conn], step.elapsed)
             ==> s.sessions[s.conns[step.conn].token].wire.keepaliveSecs.None?
    requires TakesHandshake(s.sessions, s.conns[step.conn].token)
             ==> s.sessions[s.conns[step.conn].token].wire == NO_WIRE
    ensures Grows(s.sessions[s.conns[step.conn].token], NextSessions(s, step)[s.conns[step.conn].token])
  {
  }

  /** The one unconditional write of the keepalive figure finds it unset. */
  lemma {:induction false} ReportsOnce(s: System, step: Step)
    requires Inv(s) && Enabled(s, step)
    ensures step.HearKeepalive? && Reports(s.conns[step.conn], step.elapsed)
            && s.conns[step.conn].token in s.sessions
            ==> s.sessions[s.conns[step.conn].token].wire.keepaliveSecs.None?
  {
    if step.HearKeepalive? && s.conns[step.conn].token in s.sessions {
      assert ConnOk(s, s.conns[step.conn]);
      WinnerShows(s, step.conn);
    }
  }

  lemma {:induction false} GrowsTransitive(a: Session, b: Session, c: Session)
    requires Grows(a, b) && Grows(b, c)
    ensures Grows(a, c)
  {
  }

  /** A session present at both ends of a stretch was there all along. */
  lemma {:induction false} TokensAreFresh(run: seq<System>, steps: seq<Step>, i: nat, j: nat, t: Token)
    requires IsRun(run, steps) && i <= j < |run| && t in run[i].used
    ensures t in run[j].used
    ensures t in run[j].sessions ==> t in run[i].sessions
    decreases j
  {
    if i < j {
      TokensAreFresh(run, steps, i, j - 1, t);
      assert Follows(run[j - 1], steps[j - 1], run[j]);
    }
  }

  /** Over every stretch of every run a session only grows: what is recorded
      stays recorded. */
  lemma {:induction false} FingerprintsOnlyGrow(run: seq<System>, steps: seq<Step>, i: nat, j: nat, t: Token)
    requires IsRun(run, steps) && i <= j < |run| && t in run[i].sessions && t in run[j].sessions
    ensures Grows(run[i].sessions[t], run[j].sessions[t])
    decreases j
  {
    hide Inv, Grows, NextSessions, NextConn;
    if i == j {
      GrowsRefl(run[i].sessions[t]);
    } else {
      RunKeepsInv(run, steps, j - 1);
      UsedTokens(run, steps, i, t);
      assert Follows(run[j - 1], steps[j - 1], run[j]);
      UsedTokens(run, steps, j - 1, t);
      TokensAreFresh(run, steps, i, j - 1, t);
      TokensAreFresh(run, steps, j - 1, j, t);
      FingerprintsOnlyGrow(run, steps, i, j - 1, t);
      StepGrows(run[j - 1], steps[j - 1], t);
      GrowsTransitive(run[i].sessions[t], run[j - 1].sessions[t], run[j].sessions[t]);
    }
  }

  lemma {:induction false} GrowsRefl(a: Session)
    ensures Grows(a, a)
  {
  }

  lemma {:induction false} UsedTokens(run: seq<System>, steps: seq<Step>, i: nat, t: Token)
    requires IsRun(run, steps) && i < |run|
    ensures t in run[i].sessions ==> t in run[i].used
  {
    RunKeepsInv(run, steps, i);
    if t in run[i].sessions { assert Explained(run[i], t); }
  }

  // ---------- Where the extension fields come from ----------

  ghost predicate NoneLocks(exts: seq<Fields>) {
    forall i | 0 <= i < |exts| :: !Locked(exts[i])
  }

  lemma {:induction false} StaysOpen(exts: seq<Fields>)
    ensures Locked(ExtOf(exts)) <==> !NoneLocks(exts)
  {
    if exts != [] {
      var before := exts[..|exts| - 1];
      StaysOpen(before);
      assert exts == before + [exts[|exts| - 1]];
    }
  }

  /** The first handshake with `v`, `m` or `reqq` decides those three, and what
      follows it changes nothing; earlier ones leave only other fields. */
  lemma {:induction false} FirstLockingDecides(open: seq<Fields>, e: Fields, rest: seq<Fields>)
    requires NoneLocks(open) && Locked(e)
    ensures ExtOf(open + [e] + rest) == Overlay(ExtOf(open), e)
    ensures ExtOf(open + [e] + rest).vString == e.vString
    ensures ExtOf(open + [e] + rest).mDict == e.mDict
    ensures ExtOf(open + [e] + rest).reqq == e.reqq
    decreases |rest|
  {
    StaysOpen(open);
    ExtSnoc(open, e);
    if rest == [] {
      assert open + [e] + rest == open + [e];
    } else {
      var most := rest[..|rest| - 1];
      FirstLockingDecides(open, e, most);
      ExtSnoc(open + [e] + most, rest[|rest| - 1]);
      assert open + [e] + most + [rest[|rest| - 1]] == open + [e] + rest;
    }
  }

  /** Until they are locked, each extension field is what the last handshake that
      carried it said; none is known before the first. */
  lemma {:induction false} ExtFieldsAre(open: seq<Fields>, e: Fields)
    requires NoneLocks(open)
    ensures var f, g := ExtOf(open), ExtOf(open + [e]);
            && g.vString == (if e.vString.Some? then e.vString else f.vString)
            && g.mDict == (if e.mDict.Some? then e.mDict else f.mDict)
            && g.reqq == (if e.reqq.Some? then e.reqq else f.reqq)
            && g.encryptionPreferred == (if e.encryptionPreferred.Some? then e.encryptionPreferred else f.encryptionPreferred)
            && g.uploadOnly == (if e.uploadOnly.Some? then e.uploadOnly else f.uploadOnly)
            && g.completeAgo == (if e.completeAgo.Some? then e.completeAgo else f.completeAgo)
            && g.yourip == (if e.yourip.Some? then e.yourip else f.yourip)
            && g.listenPort == (if e.listenPort.Some? then e.listenPort else f.listenPort)
            && g.metadataSize == (if e.metadataSize.Some? then e.metadataSize else f.metadataSize)
            && g.ipv4 == (if e.ipv4.Some? then e.ipv4 else f.ipv4)
            && g.ipv6 == (if e.ipv6.Some? then e.ipv6 else f.ipv6)
            && g.shareMode == (if e.shareMode.Some? then e.shareMode else f.shareMode)
    ensures ExtOf([]) == Fields(None, None, None, None, None, None, None, None, None, None, None, None)
  {
    StaysOpen(open);
    ExtSnoc(open, e);
  }

  /** The first extension handshake alone is recorded, whatever follows it, exactly
      when it carries `v`, `m` or `reqq`. */
  lemma {:induction false} FirstAloneIff(e: Fields)
    ensures Locked(e) <==> forall rest: seq<Fields> :: ExtOf([e] + rest) == ExtOf([e])
  {
    assert ExtOf([]) == NO_EXT && [] + [e] == [e];
    ExtSnoc([], e);
    if Locked(e) {
      forall rest: seq<Fields> ensures ExtOf([e] + rest) == ExtOf([e]) {
        FirstLockingDecides([], e, rest);
        assert [] + [e] + rest == [e] + rest;
      }
    } else {
      LaterAddsTo(e);
    }
  }

  /** A first handshake without them: a second one that names a client is added. */
  lemma {:induction false} LaterAddsTo(e: Fields)
    requires !Locked(e)
    ensures ExtOf([e] + [NO_EXT.(vString := Some([]))]).vString == Some([])
    ensures ExtOf([e] + [NO_EXT.(vString := Some([]))]) != ExtOf([e])
  {
    assert ExtOf([]) == NO_EXT && [] + [e] == [e];
    ExtSnoc([], e);
    ExtSnoc([e], NO_EXT.(vString := Some([])));
  }

  /** In every run: a connection's next extension handshake is recorded exactly
      when none of its earlier ones carried `v`, `m` or `reqq`. */
  lemma {:induction false} ExtRecordedIff(run: seq<System>, steps: seq<Step>, i: nat)
    requires IsRun(run, steps) && i < |steps| && steps[i].HearExt?
    ensures steps[i].conn < |run[i].conns|
    ensures var c := run[i].conns[steps[i].conn];
            TakesExt(run[i].sessions, c.token) <==> c.token in run[i].sessions && NoneLocks(c.exts)
  {
    hide WireOf, Explained, OneWinner;
    RunKeepsInv(run, steps, i);
    assert Follows(run[i], steps[i], run[i + 1]);
    var c := run[i].conns[steps[i].conn];
    assert ConnOk(run[i], c);
    if c.token in run[i].sessions {
      WinnerShows(run[i], steps[i].conn);
      ExtShown(c);
      StaysOpen(c.exts);
    }
  }

  lemma {:induction false} ExtShown(c: Conn)
    ensures WireOf(c).ext == ExtOf(c.exts)
  {
  }

  // ---------- Status ----------

  function Rank(st: Status): nat {
    match st
    case WaitingForAnnounce => 0
    case AnnounceCaptured => 1
    case HandshakeCaptured => 2
    case ExtHandshakeCaptured => 3
  }

  /** A session's status goes back exactly when its first announce arrives after
      a peer handshake was recorded. */
  lemma {:induction false} StatusGoesBackIff(run: seq<System>, steps: seq<Step>, i: nat, t: Token)
    requires IsRun(run, steps) && i < |steps| && t in run[i].sessions && t in run[i + 1].sessions
    ensures Rank(run[i + 1].sessions[t].status) < Rank(run[i].sessions[t].status)
            <==> && steps[i].Announce? && steps[i].token == t && run[i].sessions[t].announce.peerId.None?
                 && Rank(run[i].sessions[t].status) >= 2
  {
    hide WireOf, FromWinner, NextConn;
    RunKeepsInv(run, steps, i);
    assert Explained(run[i], t) && Follows(run[i], steps[i], run[i + 1]);
    if steps[i].Start? { assert steps[i].token != t; }
  }

  /** The status names the last thing recorded: an announce, a handshake or an
      extension handshake; no other step of a run moves it. */
  lemma {:induction false} StatusFollows(run: seq<System>, steps: seq<Step>, i: nat, t: Token)
    requires IsRun(run, steps) && i < |steps| && t in run[i].sessions && t in run[i + 1].sessions
    ensures var a, b := run[i].sessions[t], run[i + 1].sessions[t]; var step := steps[i];
            if step.Announce? && step.token == t && a.announce.peerId.None? then b.status == AnnounceCaptured
            else if step.OfferHandshake? && run[i].conns[step.conn].token == t && a.wire.reservedBytes.None?
            then b.status == HandshakeCaptured
            else if step.HearExt? && run[i].conns[step.conn].token == t
                 && a.wire.ext.vString.None? && a.wire.ext.mDict.None? && a.wire.ext.reqq.None?
            then b.status == ExtHandshakeCaptured
            else b.status == a.status
  {
    hide WireOf, FromWinner, NextConn;
    RunKeepsInv(run, steps, i);
    assert Explained(run[i], t) && Follows(run[i], steps[i], run[i + 1]);
    if steps[i].Start? { assert steps[i].token != t; }
  }

  /** A session waits for its announce exactly until an announce or a handshake
      has come in. */
  lemma {:induction false} WaitingIff(run: seq<System>, steps: seq<Step>, i: nat, t: Token)
    requires IsRun(run, steps) && i < |run| && t in run[i].sessions
    ensures run[i].sessions[t].status == WaitingForAnnounce
            <==> History(run[i], t) == [] && forall k | 0 <= k < |run[i].conns| :: !Winner(run[i].conns[k], t)
  {
    hide ExtOf, FirstTen, Inv;
    RunKeepsInv(run, steps, i);
    InvExplains(run[i], t);
  }

  lemma {:induction false} InvExplains(s: System, t: Token)
    requires Inv(s) && t in s.sessions
    ensures Explained(s, t)
  {
    hide Explained;
  }
}
