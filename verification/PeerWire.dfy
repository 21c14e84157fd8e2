/**
 The peer-wire message loop: BEP 3 "peer protocol" framing as the loop reads
 it, against the framing as peers write it.

 The loop reads five header bytes at a time, but a keepalive is only four
 bytes long, so each keepalive costs the loop one byte of the next message.
 */
module PeerWire {
  import opened Wrappers
  import opened Bytes
  import opened ExtHandshake
  import opened Bencode
  import opened SortedMap

  const MSG_HEADER_LEN: nat := 5
  const MAX_PEER_MSG_LEN: nat := 65_536
  const DISCARD_BUF_LEN: nat := 256
  const MSG_PIECE: byte := 7
  const MSG_EXTENDED: byte := 20

  /** What the loop makes of one header: the length and id it read, and the
      body when it was kept (extended messages of a capture session). */
  datatype Seen = SeenKeepalive | SeenMessage(id: byte, len: nat, body: Option<bytes>)

  /** Why the loop ended. */
  datatype Exit = EndOfStream | EndInBody | Oversized | PieceReceived

  datatype Run = Run(seen: seq<Seen>, exit: Exit)

  function FromBe32(s: bytes): nat
    requires |s| == 4
  {
    ((s[0] as int * 256 + s[1]) * 256 + s[2]) * 256 + s[3]
  }

  function Be32(n: nat): (r: bytes)
    requires n < U32_MODULUS
    ensures |r| == 4 && FromBe32(r) == n
  {
    var mid := n / 256;
    var high := mid / 256;
    [high / 256, high % 256, mid % 256, n % 256]
  }

  /** Network order: lengths compare as their four bytes do, the first difference
      deciding. */
  lemma {:induction false} NetworkOrder(a: bytes, b: bytes)
    requires |a| == 4 && |b| == 4
    ensures FromBe32(a) < FromBe32(b) <==> Less(a, b)
    ensures FromBe32(a) < U32_MODULUS
  {
    hide Less;
    var i := if a[0] != b[0] then 0 else if a[1] != b[1] then 1 else if a[2] != b[2] then 2 else if a[3] != b[3] then 3 else 4;
    assert a[..i] == b[..i];
    LessAt(a, b, i);
  }

  function Keeps(capture: bool, id: byte): bool {
    capture && id == MSG_EXTENDED
  }

  function Prepend(seen: seq<Seen>, run: Run): Run {
    Run(seen + run.seen, run.exit)
  }

  /** What the loop does with the bytes from `pos` on. */
  function Loop(stream: bytes, pos: nat, capture: bool): Run
    requires pos <= |stream|
    decreases |stream| - pos
  {
    if pos + MSG_HEADER_LEN > |stream| then Run([], EndOfStream)
    else
      var len, id := FromBe32(stream[pos..pos + 4]), stream[pos + 4];
      var next := pos + MSG_HEADER_LEN;
      if len == 0 then Prepend([SeenKeepalive], Loop(stream, next, capture))
      else if len > MAX_PEER_MSG_LEN then Run([], Oversized)
      else if id == MSG_PIECE then Run([], PieceReceived)
      else if next + (len - 1) > |stream| then Run([SeenMessage(id, len, None)], EndInBody)
      else
        var body := if Keeps(capture, id) then Some(stream[next..next + (len - 1)]) else None;
        Prepend([SeenMessage(id, len, body)], Loop(stream, next + (len - 1), capture))
  }

  lemma {:induction false} PrependMore(seen: seq<Seen>, one: Seen, run: Run)
    ensures Prepend(seen, Prepend([one], run)) == Prepend(seen + [one], run)
  {
    assert seen + ([one] + run.seen) == seen + [one] + run.seen;
  }

  /** The chunked drain: reads `count` bytes or finds the stream too short. */
  method Drain(stream: bytes, start: nat, count: nat) returns (ok: bool, pos: nat)
    requires start <= |stream|
    ensures ok == (start + count <= |stream|)
    ensures ok ==> pos == start + count
  {
    var remaining: nat := count;
    pos := start;
    while remaining > 0
      invariant pos + remaining == start + count && pos <= |stream|
    {
      var take := if remaining < DISCARD_BUF_LEN then remaining else DISCARD_BUF_LEN;
      if pos + take > |stream| { return false, pos; }
      pos := pos + take;
      remaining := remaining - take;
    }
    ok := true;
  }

  /** The message loop over a buffered stream, draining or keeping each body. */
  method ReadMessages(stream: bytes, capture: bool) returns (run: Run)
    ensures run == Loop(stream, 0, capture)
  {
    hide FromBe32;
    var pos := 0;
    var seen: seq<Seen> := [];
    while pos + MSG_HEADER_LEN <= |stream|
      invariant 0 <= pos <= |stream|
      invariant Loop(stream, 0, capture) == Prepend(seen, Loop(stream, pos, capture))
      decreases |stream| - pos
    {
      var len, id := FromBe32(stream[pos..pos + 4]), stream[pos + 4];
      var next := pos + MSG_HEADER_LEN;
      if len == 0 {
        PrependMore(seen, SeenKeepalive, Loop(stream, next, capture));
        pos, seen := next, seen + [SeenKeepalive];
        continue;
      }
      if len > MAX_PEER_MSG_LEN { return Run(seen, Oversized); }
      if id == MSG_PIECE { return Run(seen, PieceReceived); }
      var body, ok, end := None, next + (len - 1) <= |stream|, next + (len - 1);
      if Keeps(capture, id) {
        if ok { body := Some(stream[next..end]); }
      } else {
        ok, end := Drain(stream, next, len - 1);
      }
      if !ok { return Run(seen + [SeenMessage(id, len, None)], EndInBody); }
      PrependMore(seen, SeenMessage(id, len, body), Loop(stream, end, capture));
      pos, seen := end, seen + [SeenMessage(id, len, body)];
    }
    return Run(seen, EndOfStream);
  }

  // ---------- What peers write ----------

  datatype Frame = Keepalive | Message(id: byte, payload: bytes)

  /** The payload's length fits the 32-bit prefix. */
  predicate Sendable(f: Frame) { f.Message? ==> 1 + |f.payload| < U32_MODULUS }

  /** Bytes of one frame; a message is what `write_msg` sends. */
  function Wire(f: Frame): bytes
    requires Sendable(f)
  {
    match f
    case Keepalive => [0, 0, 0, 0]
    case Message(id, payload) => Be32(1 + |payload|) + ([id] + payload)
  }

  method WriteMsg(id: byte, payload: bytes) returns (buf: bytes)
    requires 1 + |payload| < U32_MODULUS
    ensures buf == Wire(Message(id, payload))
    ensures |payload| < 255 ==> buf == [0, 0, 0, 1 + |payload|, id] + payload
  {
    var len := 1 + |payload|;
    buf := [];
    buf := buf + Be32(len);
    buf := buf + [id];
    buf := buf + payload;
    assert buf == Be32(len) + ([id] + payload);
    SmallLength(len);
    assert |payload| < 255 ==> buf == [0, 0, 0, 1 + |payload|, id] + payload;
  }

  lemma {:induction false} SmallLength(n: nat)
    requires n < U32_MODULUS
    ensures n < 256 ==> Be32(n) == [0, 0, 0, n]
  {
  }

  function Stream(frames: seq<Frame>): bytes
    requires forall f | f in frames :: Sendable(f)
  {
    if frames == [] then []
    else
      assert frames[0] in frames;
      Wire(frames[0]) + Stream(frames[1..])
  }

  function AsSeen(f: Frame, capture: bool): Seen {
    match f
    case Keepalive => SeenKeepalive
    case Message(id, payload) =>
      SeenMessage(id, 1 + |payload|, if Keeps(capture, id) then Some(payload) else None)
  }

  function AllSeen(frames: seq<Frame>, capture: bool): seq<Seen> {
    if frames == [] then [] else [AsSeen(frames[0], capture)] + AllSeen(frames[1..], capture)
  }

  /** Messages one by one, up to the first oversized or piece message. */
  function Ideal(frames: seq<Frame>, capture: bool): Run {
    if frames == [] then Run([], EndOfStream)
    else if frames[0].Message? && 1 + |frames[0].payload| > MAX_PEER_MSG_LEN then Run([], Oversized)
    else if frames[0].Message? && frames[0].id == MSG_PIECE then Run([], PieceReceived)
    else
      Prepend([AsSeen(frames[0], capture)], Ideal(frames[1..], capture))
  }

  // ---------- One message on the wire ----------

  lemma {:induction false} TwoByteLength(hi: byte, lo: byte)
    ensures FromBe32([0, 0, hi, lo]) == hi as int * 256 + lo
  {
  }

  /** A stream that starts with the bytes `0 0 hi lo id` of a complete message the
      loop accepts: that message is seen first, with `hi * 256 + lo` as its length
      and its body kept exactly for an extended message of a capture session; the
      loop then goes on behind it. */
  lemma {:induction false} FirstMessageSeen(hi: byte, lo: byte, id: byte, payload: bytes, rest: bytes, capture: bool)
    requires hi as int * 256 + lo == 1 + |payload| && id != 7
    ensures var stream := [0, 0, hi, lo, id] + payload + rest;
            var run := Loop(stream, 0, capture);
            && run.seen != []
            && run.seen[0] == SeenMessage(id, hi as int * 256 + lo, if capture && id == 20 then Some(payload) else None)
            && run == Prepend([run.seen[0]], Loop(stream, 5 + |payload|, capture))
  {
    hide FromBe32;
    var stream := [0, 0, hi, lo, id] + payload + rest;
    assert stream[0..4] == [0, 0, hi, lo] && stream[5..5 + |payload|] == payload;
    TwoByteLength(hi, lo);
  }

  /** A length above 65536 ends the loop unseen, and so does a piece message; a
      zero length is a keepalive that takes its five bytes. */
  lemma {:induction false} RefusedHeaders(b0: byte, b1: byte, b2: byte, b3: byte, id: byte, rest: bytes, capture: bool)
    ensures var stream := [b0, b1, b2, b3, id] + rest;
            var len := ((b0 as int * 256 + b1) * 256 + b2) * 256 + b3;
            && (len > 65536 ==> Loop(stream, 0, capture) == Run([], Oversized))
            && (0 < len <= 65536 && id == 7 ==> Loop(stream, 0, capture) == Run([], PieceReceived))
            && (len == 0 ==> Loop(stream, 0, capture) == Prepend([SeenKeepalive], Loop(stream, 5, capture)))
  {
    var stream := [b0, b1, b2, b3, id] + rest;
    assert stream[0..4] == [b0, b1, b2, b3];
  }

  // ---------- The loop against the frames ----------

  lemma {:induction false} MessageAt(stream: bytes, pos: nat, id: byte, payload: bytes)
    requires 1 + |payload| < U32_MODULUS && At(stream, pos, Wire(Message(id, payload)))
    ensures pos + 5 + |payload| <= |stream|
    ensures FromBe32(stream[pos..pos + 4]) == 1 + |payload| && stream[pos + 4] == id
    ensures stream[pos + 5..pos + 5 + |payload|] == payload
    ensures |Wire(Message(id, payload))| == 5 + |payload|
  {
    hide Be32, FromBe32;
    var len := Be32(1 + |payload|);
    AtConcat(stream, pos, len, [id] + payload);
    AtConcat(stream, pos + 4, [id], payload);
    AtIsSlice(stream, pos, len);
    AtFirst(stream, pos + 4, [id]);
    AtIsSlice(stream, pos + 5, payload);
  }

  /** Without keepalives the loop sees exactly the messages sent, in order, up
      to the first it refuses. */
  lemma {:induction false} SeesMessages(stream: bytes, pos: nat, frames: seq<Frame>, capture: bool)
    requires forall f | f in frames :: f.Message? && Sendable(f)
    requires At(stream, pos, Stream(frames)) && |stream| == pos + |Stream(frames)|
    ensures Loop(stream, pos, capture) == Ideal(frames, capture)
    decreases frames
  {
    hide FromBe32, Wire, Keeps;
    if frames != [] {
      var f := frames[0];
      assert f in frames;
      AtConcat(stream, pos, Wire(f), Stream(frames[1..]));
      MessageAt(stream, pos, f.id, f.payload);
      SeesMessages(stream, pos + |Wire(f)|, frames[1..], capture);
    }
  }

  /** The bytes the loop takes for one thing it saw. */
  function Taken(s: Seen): nat {
    match s
    case SeenKeepalive => MSG_HEADER_LEN
    case SeenMessage(_, len, _) => 4 + len
  }

  function TotalTaken(seen: seq<Seen>): nat {
    if seen == [] then 0 else Taken(seen[0]) + TotalTaken(seen[1..])
  }

  lemma {:induction false} TakenFromStream(stream: bytes, pos: nat, capture: bool)
    requires pos <= |stream| && Loop(stream, pos, capture).exit != EndInBody
    ensures TotalTaken(Loop(stream, pos, capture).seen) <= |stream| - pos
    decreases |stream| - pos
  {
    hide FromBe32;
    if pos + MSG_HEADER_LEN <= |stream| {
      var len, id := FromBe32(stream[pos..pos + 4]), stream[pos + 4];
      var next := pos + MSG_HEADER_LEN;
      if len == 0 {
        TakenFromStream(stream, next, capture);
      } else if len <= MAX_PEER_MSG_LEN && id != MSG_PIECE {
        TakenFromStream(stream, next + (len - 1), capture);
      }
    }
  }

  lemma {:induction false} KeepalivesCost(frames: seq<Frame>, capture: bool)
    requires forall f | f in frames :: Sendable(f)
    ensures TotalTaken(AllSeen(frames, capture)) >= |Stream(frames)|
    ensures Keepalive in frames ==> TotalTaken(AllSeen(frames, capture)) > |Stream(frames)|
    decreases frames
  {
    hide Be32;
    if frames != [] {
      assert frames[0] in frames;
      KeepalivesCost(frames[1..], capture);
      assert frames == [frames[0]] + frames[1..];
    }
  }

  ghost predicate Acceptable(f: Frame) {
    f.Message? ==> 1 + |f.payload| <= MAX_PEER_MSG_LEN && f.id != MSG_PIECE
  }

  lemma {:induction false} IdealOfAcceptable(frames: seq<Frame>, capture: bool)
    requires forall f | f in frames :: Acceptable(f)
    ensures Ideal(frames, capture) == Run(AllSeen(frames, capture), EndOfStream)
  {
    if frames != [] {
      assert frames[0] in frames;
      IdealOfAcceptable(frames[1..], capture);
    }
  }

  /** On acceptable frames the loop sees every one of them and then a clean end
      exactly when none of them is a keepalive. */
  lemma {:induction false} FramedExactlyWithoutKeepalives(frames: seq<Frame>, capture: bool)
    requires forall f | f in frames :: Acceptable(f)
    ensures forall f | f in frames :: Sendable(f)
    ensures Loop(Stream(frames), 0, capture) == Run(AllSeen(frames, capture), EndOfStream)
            <==> Keepalive !in frames
  {
    hide Loop, Stream, Ideal, AllSeen;
    AtSelf(Stream(frames));
    IdealOfAcceptable(frames, capture);
    if Keepalive !in frames {
      SeesMessages(Stream(frames), 0, frames, capture);
    } else {
      KeepalivesCost(frames, capture);
      if Loop(Stream(frames), 0, capture).exit != EndInBody {
        TakenFromStream(Stream(frames), 0, capture);
      }
    }
  }

  /** End to end: the extended handshake this server writes is what a capture
      session on the other side reads, field for field. */
  lemma {:induction false} HandshakeArrives(reg: Registration, peerIp: Option<bytes>, payload: bytes, others: seq<Frame>)
    requires ValidRegistration(reg) && (peerIp.Some? ==> |peerIp.value| <= ISIZE_MAX)
    requires payload == [EXT_HANDSHAKE_ID] + Encode(Handshake(reg, peerIp)) && 1 + |payload| <= MAX_PEER_MSG_LEN
    requires forall f | f in others :: f.Message? && Acceptable(f)
    ensures forall f | f in others + [Message(MSG_EXTENDED, payload)] :: Sendable(f)
    ensures var seen := Loop(Stream(others + [Message(MSG_EXTENDED, payload)]), 0, true).seen;
            && |seen| == |others| + 1
            && seen[|others|].SeenMessage? && seen[|others|].body == Some(payload)
            && ReadExtHandshake(payload) == Some(Shown(reg, peerIp))
  {
    hide Loop, Stream, Encode, Handshake, ReadExtHandshake, Shown, ValidRegistration;
    var last := Message(MSG_EXTENDED, payload);
    FramedExactlyWithoutKeepalives(others + [last], true);
    ShownLast(others, last, true);
    HandshakeRoundTrip(reg, peerIp);
  }

  lemma {:induction false} ShownLast(others: seq<Frame>, last: Frame, capture: bool)
    ensures AllSeen(others + [last], capture) == AllSeen(others, capture) + [AsSeen(last, capture)]
    ensures |AllSeen(others, capture)| == |others|
  {
    if others == [] {
      assert [] + [last] == [last];
    } else {
      assert (others + [last])[1..] == others[1..] + [last];
      ShownLast(others[1..], last, capture);
    }
  }
}
