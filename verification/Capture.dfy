/**
 Capture sessions: what an announce and a peer connection write into a
 session's fingerprint, one lock region at a time.
 */
module Capture {
  import opened Wrappers
  import opened Bytes
  import opened Bencode
  import opened ExtHandshake
  import opened Torrent

  const MAX_CAPTURE_MESSAGES: nat := 10

  type Token = bytes

  datatype AnnounceData = AnnounceData(
    peerId: bytes, userAgent: bytes, queryParamOrder: seq<bytes>, rawQuery: bytes,
    numwant: Option<nat>, httpHeaders: seq<(bytes, bytes)>)

  /** The fingerprint's fields filled from the tracker announce. */
  datatype AnnounceSide = AnnounceSide(
    peerId: Option<bytes>, userAgent: Option<bytes>, queryParamOrder: Option<seq<bytes>>,
    rawQuery: Option<bytes>, numwant: Option<nat>, httpHeaders: Option<seq<(bytes, bytes)>>)

  /** The fingerprint's fields filled from the peer connection. */
  datatype WireSide = WireSide(
    reservedBytes: Option<bytes>, handshakePeerId: Option<bytes>, ext: Fields,
    messageOrder: Option<seq<bytes>>, keepaliveSecs: Option<nat>)

  datatype Status = WaitingForAnnounce | AnnounceCaptured | HandshakeCaptured | ExtHandshakeCaptured

  datatype Session = Session(infoHash: bytes, announce: AnnounceSide, wire: WireSide, status: Status)

  const NO_ANNOUNCE := AnnounceSide(None, None, None, None, None, None)
  const NO_EXT := Fields(None, None, None, None, None, None, None, None, None, None, None, None)
  const NO_WIRE := WireSide(None, None, NO_EXT, None, None)

  type Sessions = map<Token, Session>

  // ---------- One lock region each ----------

  function Opened(infoHash: bytes): Session {
    Session(infoHash, NO_ANNOUNCE, NO_WIRE, WaitingForAnnounce)
  }

  /** The hash of the generated torrent: the name alone decides it, so sessions
      started under one name share it. */
  function CaptureHash(torrentName: bytes, sha1: bytes -> bytes): bytes {
    sha1(Encode(InfoDict(torrentName)))
  }

  function FromAnnounce(data: AnnounceData): AnnounceSide {
    AnnounceSide(Some(data.peerId), Some(data.userAgent), Some(data.queryParamOrder),
                 Some(data.rawQuery), data.numwant, Some(data.httpHeaders))
  }

  predicate TakesAnnounce(m: Sessions, t: Token) {
    t in m && m[t].announce.peerId.None?
  }

  function AfterAnnounce(m: Sessions, t: Token, data: AnnounceData): Sessions {
    if TakesAnnounce(m, t) then m[t := m[t].(announce := FromAnnounce(data), status := AnnounceCaptured)] else m
  }

  predicate TakesHandshake(m: Sessions, t: Token) {
    t in m && m[t].wire.reservedBytes.None?
  }

  function AfterHandshake(m: Sessions, t: Token, reserved: bytes, peerId: bytes): Sessions {
    if TakesHandshake(m, t)
    then m[t := m[t].(wire := m[t].wire.(reservedBytes := Some(reserved), handshakePeerId := Some(peerId)),
                      status := HandshakeCaptured)]
    else m
  }

  /** A handshake naming the client version, its extensions or its queue depth
      closes the extension fields. */
  predicate Locked(f: Fields) {
    f.vString.Some? || f.mDict.Some? || f.reqq.Some?
  }

  function Or<T>(a: Option<T>, b: Option<T>): Option<T> {
    if a.Some? then a else b
  }

  /** The fields `e` carries, over those of `f`. */
  function Overlay(f: Fields, e: Fields): Fields {
    Fields(Or(e.vString, f.vString), Or(e.mDict, f.mDict), Or(e.reqq, f.reqq),
           Or(e.encryptionPreferred, f.encryptionPreferred), Or(e.uploadOnly, f.uploadOnly),
           Or(e.completeAgo, f.completeAgo), Or(e.yourip, f.yourip), Or(e.listenPort, f.listenPort),
           Or(e.metadataSize, f.metadataSize), Or(e.ipv4, f.ipv4), Or(e.ipv6, f.ipv6),
           Or(e.shareMode, f.shareMode))
  }

  predicate TakesExt(m: Sessions, t: Token) {
    t in m && !Locked(m[t].wire.ext)
  }

  function AfterExt(m: Sessions, t: Token, e: Fields): Sessions {
    if TakesExt(m, t)
    then m[t := m[t].(wire := m[t].wire.(ext := Overlay(m[t].wire.ext, e)), status := ExtHandshakeCaptured)]
    else m
  }

  function Noted(order: Option<seq<bytes>>, name: bytes): seq<bytes> {
    match order
    case None => [name]
    case Some(names) => if |names| < MAX_CAPTURE_MESSAGES then names + [name] else names
  }

  function AfterMessage(m: Sessions, t: Token, name: bytes): Sessions {
    if t !in m then m
    else
      m[t := m[t].(wire := m[t].wire.(messageOrder := Some(Noted(m[t].wire.messageOrder, name))))]
  }

  function AfterKeepalive(m: Sessions, t: Token, secs: nat): Sessions {
    if t in m then m[t := m[t].(wire := m[t].wire.(keepaliveSecs := Some(secs)))] else m
  }

  function AfterEnd(m: Sessions, t: Token): Sessions {
    if t in m && m[t].wire.keepaliveSecs.None? then AfterKeepalive(m, t, 0) else m
  }

  /** The store, each method one lock region. */
  class CaptureStore {
    var sessions: Sessions

    constructor ()
      ensures sessions == map[]
    {
      sessions := map[];
    }

    /** Writes the capture torrent and opens a session for its hash; the token and
        the announce URL holding it are minted by the caller. */
    method Start(token: Token, announceUrl: bytes, torrentName: bytes, sha1: bytes -> bytes) returns (torrent: bytes)
      requires IsStr(announceUrl) && IsStr(torrentName) && |Encode(TorrentDict(announceUrl, torrentName))| <= ISIZE_MAX
      modifies this
      ensures torrent == Encode(TorrentDict(announceUrl, torrentName))
      ensures sessions == old(sessions)[token := Opened(CaptureHash(torrentName, sha1))]
    {
      hide Encode, TorrentDict, IsStr;
      var hash;
      torrent, hash := Generate(announceUrl, torrentName, sha1);
      sessions := sessions[token := Opened(hash)];
    }

    /** Some session with this info hash; which one is not specified. */
    method FindByInfoHash(infoHash: bytes) returns (token: Option<Token>)
      ensures token.Some? ==> token.value in sessions && sessions[token.value].infoHash == infoHash
      ensures token.None? ==> forall t | t in sessions :: sessions[t].infoHash != infoHash
    {
      var left := sessions.Keys;
      while left != {}
        invariant left <= sessions.Keys
        invariant forall t | t in sessions && t !in left :: sessions[t].infoHash != infoHash
        decreases |left|
      {
        var t :| t in left;
        if sessions[t].infoHash == infoHash { return Some(t); }
        left := left - {t};
      }
      return None;
    }

    method RecordAnnounce(token: Token, data: AnnounceData) returns (recorded: bool)
      modifies this
      ensures recorded == TakesAnnounce(old(sessions), token)
      ensures sessions == AfterAnnounce(old(sessions), token, data)
    {
      if token !in sessions { return false; }
      var s := sessions[token];
      if s.announce.peerId.Some? { return false; }
      s := s.(announce := s.announce.(peerId := Some(data.peerId), userAgent := Some(data.userAgent)));
      s := s.(announce := s.announce.(queryParamOrder := Some(data.queryParamOrder), rawQuery := Some(data.rawQuery)));
      s := s.(announce := s.announce.(numwant := data.numwant, httpHeaders := Some(data.httpHeaders)));
      sessions := sessions[token := s.(status := AnnounceCaptured)];
      return true;
    }

    method RecordHandshake(token: Token, reserved: bytes, peerId: bytes) returns (recorded: bool)
      modifies this
      ensures recorded == TakesHandshake(old(sessions), token)
      ensures sessions == AfterHandshake(old(sessions), token, reserved, peerId)
    {
      if token !in sessions { return false; }
      var s := sessions[token];
      if s.wire.reservedBytes.Some? { return false; }
      s := s.(wire := s.wire.(reservedBytes := Some(reserved), handshakePeerId := Some(peerId)));
      sessions := sessions[token := s.(status := HandshakeCaptured)];
      return true;
    }

    method RecordExtHandshake(token: Token, data: Fields) returns (recorded: bool)
      modifies this
      ensures recorded == TakesExt(old(sessions), token)
      ensures sessions == AfterExt(old(sessions), token, data)
    {
      if token !in sessions { return false; }
      var s := sessions[token];
      var fp := s.wire.ext;
      if fp.vString.Some? || fp.mDict.Some? || fp.reqq.Some? { return false; }
      fp := fp.(vString := Or(data.vString, fp.vString));
      fp := fp.(mDict := Or(data.mDict, fp.mDict));
      fp := fp.(reqq := Or(data.reqq, fp.reqq));
      fp := fp.(encryptionPreferred := Or(data.encryptionPreferred, fp.encryptionPreferred));
      fp := fp.(uploadOnly := Or(data.uploadOnly, fp.uploadOnly));
      fp := fp.(completeAgo := Or(data.completeAgo, fp.completeAgo));
      fp := fp.(yourip := Or(data.yourip, fp.yourip));
      fp := fp.(listenPort := Or(data.listenPort, fp.listenPort));
      fp := fp.(metadataSize := Or(data.metadataSize, fp.metadataSize));
      fp := fp.(ipv4 := Or(data.ipv4, fp.ipv4));
      fp := fp.(ipv6 := Or(data.ipv6, fp.ipv6));
      fp := fp.(shareMode := Or(data.shareMode, fp.shareMode));
      sessions := sessions[token := s.(wire := s.wire.(ext := fp), status := ExtHandshakeCaptured)];
      return true;
    }

    method RecordPeerMessage(token: Token, name: bytes)
      modifies this
      ensures sessions == AfterMessage(old(sessions), token, name)
    {
      if token !in sessions { return; }
      var s := sessions[token];
      var msgs := if s.wire.messageOrder.Some? then s.wire.messageOrder.value else [];
      assert [] + [name] == [name];
      if |msgs| < MAX_CAPTURE_MESSAGES { msgs := msgs + [name]; }
      sessions := sessions[token := s.(wire := s.wire.(messageOrder := Some(msgs)))];
    }

    method RecordKeepaliveSecs(token: Token, secs: nat)
      modifies this
      ensures sessions == AfterKeepalive(old(sessions), token, secs)
    {
      if token in sessions {
        var s := sessions[token];
        sessions := sessions[token := s.(wire := s.wire.(keepaliveSecs := Some(secs)))];
      }
    }

    method MarkConnectionEnded(token: Token)
      modifies this
      ensures sessions == AfterEnd(old(sessions), token)
    {
      if token in sessions {
        var s := sessions[token];
        if s.wire.keepaliveSecs.None? {
          sessions := sessions[token := s.(wire := s.wire.(keepaliveSecs := Some(0)))];
        }
      }
    }

    method Remove(token: Token)
      modifies this
      ensures sessions == old(sessions) - {token}
    {
      sessions := sessions - {token};
    }
  }
}
