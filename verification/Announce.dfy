/**
 Building an announce query: percent encoding, the nine chained `replace`
 calls, and the parser another part of the server reads queries with.
 */
module Announce {
  import opened Wrappers
  import opened Bytes
  import opened Decimal
  import opened HashText
  import opened Peer

  // ---------- Percent encoding, sections 2.1 and 2.3 of RFC 3986 ----------

  const PERCENT: byte := '%' as int
  const OPEN: byte := '{' as int
  const CLOSE: byte := '}' as int
  const AMP: byte := '&' as int
  const EQUALS: byte := '=' as int

  predicate IsAlphanumeric(b: byte) {
    48 <= b <= 57 || 65 <= b <= 90 || 97 <= b <= 122
  }

  predicate Unreserved(b: byte) {
    IsAlphanumeric(b) || b == '-' as int || b == '.' as int || b == '_' as int || b == '~' as int
  }

  function UpperNibble(n: nat): byte
    requires n < 16
  {
    if n < 10 then 48 + n else 65 + (n - 10)
  }

  function EncodeByte(b: byte): bytes {
    if Unreserved(b) then [b] else [PERCENT, UpperNibble(b / 16), UpperNibble(b % 16)]
  }

  function PercentEncode(b: bytes): bytes {
    if b == [] then [] else EncodeByte(b[0]) + PercentEncode(b[1..])
  }

  lemma {:induction false} EncodeFrom(b: bytes, i: nat)
    requires i < |b|
    ensures PercentEncode(b[i..]) == EncodeByte(b[i]) + PercentEncode(b[i + 1..])
  {
    assert b[i..][1..] == b[i + 1..];
  }

  /** `percent_encode_raw`. */
  method PercentEncodeRaw(b: bytes) returns (out: bytes)
    ensures out == PercentEncode(b)
  {
    hide PercentEncode, Unreserved, UpperNibble;
    out := [];
    assert b[0..] == b && [] + PercentEncode(b) == PercentEncode(b);
    for i := 0 to |b|
      invariant out + PercentEncode(b[i..]) == PercentEncode(b)
    {
      EncodeFrom(b, i);
      ghost var before := out;
      if Unreserved(b[i]) {
        out := out + [b[i]];
      } else {
        out := out + [PERCENT, UpperNibble(b[i] / 16), UpperNibble(b[i] % 16)];
      }
      assert out == before + EncodeByte(b[i]);
      assert out + PercentEncode(b[i + 1..]) == before + (EncodeByte(b[i]) + PercentEncode(b[i + 1..]));
    }
    NothingEncoded();
    assert b[|b|..] == [] && out + [] == out;
  }

  /** What `percent_encoding::percent_decode_str` yields: `%` and two hex
      digits are a byte, everything else stands for itself. */
  function PercentDecode(s: bytes): bytes {
    if s == [] then []
    else if s[0] == PERCENT && |s| >= 3 && HexNibble(s[1]).Some? && HexNibble(s[2]).Some? then
      [16 * HexNibble(s[1]).value + HexNibble(s[2]).value] + PercentDecode(s[3..])
    else [s[0]] + PercentDecode(s[1..])
  }

  lemma {:induction false} NothingEncoded()
    ensures PercentEncode([]) == []
  {
  }

  lemma {:induction false} DecodeByte(c: byte, rest: bytes)
    ensures PercentDecode(EncodeByte(c) + rest) == [c] + PercentDecode(rest)
  {
    var e := EncodeByte(c);
    assert (e + rest)[|e|..] == rest;
  }

  /** Every byte string survives the trip. */
  lemma {:induction false} DecodeEncode(b: bytes)
    ensures PercentDecode(PercentEncode(b)) == b
  {
    if b != [] {
      hide PercentDecode, EncodeByte;
      DecodeEncode(b[1..]);
      DecodeByte(b[0], PercentEncode(b[1..]));
      assert b == [b[0]] + b[1..];
    }
  }

  lemma {:induction false} EncodeAvoids(b: bytes)
    ensures OPEN !in PercentEncode(b) && AMP !in PercentEncode(b) && EQUALS !in PercentEncode(b)
  {
    if b != [] { EncodeAvoids(b[1..]); }
  }

  lemma {:induction false} EncodeAppend(a: bytes, b: bytes)
    ensures PercentEncode(a + b) == PercentEncode(a) + PercentEncode(b)
  {
    hide EncodeByte;
    if a == [] {
      assert a + b == b;
    } else {
      assert (a + b)[1..] == a[1..] + b;
      EncodeAppend(a[1..], b);
    }
  }

  /** ALPHA / DIGIT / "-" / "." / "_" / "~". */
  predicate Plain(c: char) {
    'A' <= c <= 'Z' || 'a' <= c <= 'z' || '0' <= c <= '9' || c in "-._~"
  }

  lemma {:induction false} UpperDigits(n: nat)
    requires n < 16
    ensures UpperNibble(n) == "0123456789ABCDEF"[n] as int
  {
  }

  /** A query is encoded byte by byte: the unreserved characters stand for
      themselves, any other byte is `%` and two digits, the high half first. */
  lemma {:induction false} EncodedByte(a: bytes, b: byte, rest: bytes)
    ensures PercentEncode(a + [b] + rest)
            == PercentEncode(a)
               + (if Plain(b as char) then [b]
                  else ['%' as int, "0123456789ABCDEF"[b / 16] as int, "0123456789ABCDEF"[b % 16] as int])
               + PercentEncode(rest)
  {
    hide UpperNibble, PercentEncode;
    EncodeAppend(a + [b], rest);
    EncodeAppend(a, [b]);
    UpperDigits(b / 16);
    UpperDigits(b % 16);
    EncodeOne(b);
  }

  lemma {:induction false} EncodeOne(b: byte)
    ensures PercentEncode([b]) == EncodeByte(b)
  {
    hide EncodeByte;
    assert [b][1..] == [] && EncodeByte(b) + [] == EncodeByte(b);
  }

  // ---------- Placeholders and `str::replace` ----------

  datatype Placeholder = InfoHash | PeerId | Port | Uploaded | Downloaded | Left | Key | Event | Numwant

  function Name(p: Placeholder): bytes {
    match p
    case InfoHash => Ascii("{info_hash}")
    case PeerId => Ascii("{peer_id}")
    case Port => Ascii("{port}")
    case Uploaded => Ascii("{uploaded}")
    case Downloaded => Ascii("{downloaded}")
    case Left => Ascii("{left}")
    case Key => Ascii("{key}")
    case Event => Ascii("{event}")
    case Numwant => Ascii("{numwant}")
  }

  predicate StartsWith(s: bytes, prefix: bytes) {
    |prefix| <= |s| && s[..|prefix|] == prefix
  }

  /** Rust's `str::replace`: leftmost matches, none overlapping. */
  function Replace(s: bytes, pattern: bytes, value: bytes): bytes
    requires pattern != []
    decreases |s|
  {
    if s == [] then []
    else if StartsWith(s, pattern) then value + Replace(s[|pattern|..], pattern, value)
    else [s[0]] + Replace(s[1..], pattern, value)
  }

  type Values = Placeholder -> bytes

  const ORDER: seq<Placeholder> := [InfoHash, PeerId, Port, Uploaded, Downloaded, Left, Key, Event, Numwant]

  /** The chain of `replace` calls, through the `n`-th. */
  function Chain(template: bytes, values: Values, n: nat): bytes
    requires n <= |ORDER|
  {
    if n == 0 then template
    else
      NameShape(ORDER[n - 1]);
      Replace(Chain(template, values, n - 1), Name(ORDER[n - 1]), values(ORDER[n - 1]))
  }

  // ---------- One simultaneous pass ----------

  /** The placeholder standing at the start of `s`, if any. */
  function Leading(s: bytes): (r: Option<Placeholder>)
    ensures r.Some? ==> StartsWith(s, Name(r.value))
    ensures r.None? ==> forall p :: !StartsWith(s, Name(p))
  {
    if StartsWith(s, Name(InfoHash)) then Some(InfoHash)
    else if StartsWith(s, Name(PeerId)) then Some(PeerId)
    else if StartsWith(s, Name(Port)) then Some(Port)
    else if StartsWith(s, Name(Uploaded)) then Some(Uploaded)
    else if StartsWith(s, Name(Downloaded)) then Some(Downloaded)
    else if StartsWith(s, Name(Left)) then Some(Left)
    else if StartsWith(s, Name(Key)) then Some(Key)
    else if StartsWith(s, Name(Event)) then Some(Event)
    else if StartsWith(s, Name(Numwant)) then Some(Numwant)
    else None
  }

  /** Every `{` opens one of the nine placeholders. */
  predicate WellBraced(s: bytes)
    decreases |s|
  {
    s == []
    || (if s[0] == OPEN then
          Leading(s).Some? && (NameShape(Leading(s).value); WellBraced(s[|Name(Leading(s).value)|..]))
        else WellBraced(s[1..]))
  }

  /** A single left-to-right pass that replaces the placeholders in `on` and
      copies everything else. */
  function Substitute(s: bytes, values: Values, on: set<Placeholder>): bytes
    decreases |s|
  {
    if s == [] then []
    else
      match Leading(s)
      case None => [s[0]] + Substitute(s[1..], values, on)
      case Some(p) =>
        NameShape(p);
        (if p in on then values(p) else Name(p)) + Substitute(s[|Name(p)|..], values, on)
  }

  const ALL: set<Placeholder> := {InfoHash, PeerId, Port, Uploaded, Downloaded, Left, Key, Event, Numwant}

  lemma {:induction false} NameShape(p: Placeholder)
    ensures |Name(p)| >= 5 && Name(p)[0] == OPEN && Name(p)[|Name(p)| - 1] == CLOSE
    ensures forall i | 1 <= i < |Name(p)| - 1 :: Name(p)[i] != OPEN && Name(p)[i] != CLOSE
  {
    hide Name;
    NameEnds(p);
    NameInterior(p);
  }

  lemma {:induction false} NameEnds(p: Placeholder)
    ensures |Name(p)| >= 5 && Name(p)[0] == OPEN && Name(p)[|Name(p)| - 1] == CLOSE
  {
  }

  lemma {:induction false} NameInterior(p: Placeholder)
    ensures forall i | 1 <= i < |Name(p)| - 1 :: Name(p)[i] != OPEN && Name(p)[i] != CLOSE
  {
    hide Ascii;
    match p
    case InfoHash => NoBrace("{info_hash}");
    case PeerId => NoBrace("{peer_id}");
    case Port => NoBrace("{port}");
    case Uploaded => NoBrace("{uploaded}");
    case Downloaded => NoBrace("{downloaded}");
    case Left => NoBrace("{left}");
    case Key => NoBrace("{key}");
    case Event => NoBrace("{event}");
    case Numwant => NoBrace("{numwant}");
  }

  lemma {:induction false} NoBrace(s: string)
    requires |s| >= 2 && forall i | 1 <= i < |s| - 1 :: s[i] != '{' && s[i] != '}' && s[i] as int < 128
    ensures forall i | 1 <= i < |Ascii(s)| - 1 :: Ascii(s)[i] != OPEN && Ascii(s)[i] != CLOSE
  {
    hide Ascii;
  }

  // ---------- The announce URL ----------

  function EventName(e: AnnounceEvent): bytes {
    match e
    case Started => Ascii("started")
    case Completed => Ascii("completed")
    case Stopped => Ascii("stopped")
    case NoEvent => []
  }

  const EVENT_FIELD: bytes := Ascii("event")

  /** `Event::query_fragment`. */
  function QueryFragment(e: AnnounceEvent): bytes {
    if e == NoEvent then [] else [AMP] + (EVENT_FIELD + ([EQUALS] + EventName(e)))
  }

  lemma {:induction false} AsciiAppend(s: string, t: string)
    ensures Ascii(s + t) == Ascii(s) + Ascii(t)
  {
  }

  lemma {:induction false} FragmentText(name: string)
    ensures [AMP] + (EVENT_FIELD + ([EQUALS] + Ascii(name))) == Ascii("&event=" + name)
  {
    AsciiAppend("&event=", name);
    assert Ascii("&event=") == [AMP] + EVENT_FIELD + [EQUALS];
  }

  /** How each event shows in a query; a regular announce does not. */
  lemma {:induction false} EventsShown(e: AnnounceEvent)
    ensures QueryFragment(e) == match e
                                case NoEvent => []
                                case Started => Ascii("&event=" + "started")
                                case Completed => Ascii("&event=" + "completed")
                                case Stopped => Ascii("&event=" + "stopped")
  {
    hide Ascii;
    FragmentText("started");
    FragmentText("completed");
    FragmentText("stopped");
  }

  datatype Session = Session(
    announceUrl: bytes,
    infoHash: bytes,
    peerId: bytes,
    key: bytes,
    port: nat,
    queryTemplate: bytes,
    numwant: u32)

  /** What each placeholder stands for; a peer that stops wants no peers. */
  function ValueOf(session: Session, state: PeerState, event: AnnounceEvent, p: Placeholder): bytes {
    match p
    case InfoHash => PercentEncode(session.infoHash)
    case PeerId => PercentEncode(session.peerId)
    case Port => NatText(session.port)
    case Uploaded => NatText(state.uploaded)
    case Downloaded => NatText(state.downloaded)
    case Left => NatText(state.left)
    case Key => session.key
    case Event => QueryFragment(event)
    case Numwant => NatText(if event == Stopped then 0 else session.numwant)
  }

  function ValuesOf(session: Session, state: PeerState, event: AnnounceEvent): Values {
    p => ValueOf(session, state, event, p)
  }

  const QUESTION: byte := '?' as int

  /** `build_url`. */
  function BuildUrl(session: Session, state: PeerState, event: AnnounceEvent): bytes {
    session.announceUrl
    + ([if QUESTION in session.announceUrl then AMP else QUESTION]
       + Chain(session.queryTemplate, ValuesOf(session, state, event), |ORDER|))
  }

  // ---------- Reading a query ----------

  function IndexOf(s: bytes, c: byte): (i: nat)
    ensures i <= |s| && (i < |s| ==> s[i] == c)
    ensures forall j | 0 <= j < i :: s[j] != c
  {
    if s == [] || s[0] == c then 0 else 1 + IndexOf(s[1..], c)
  }

  datatype Param = Param(key: bytes, value: bytes)

  /** One `&`-free piece: `splitn(2, '=')`, dropped when its key is empty. */
  function ParsePair(pair: bytes): seq<Param> {
    var i := IndexOf(pair, EQUALS);
    if i == 0 then []
    else [Param(pair[..i], if i == |pair| then [] else pair[i + 1..])]
  }

  /** `parse_query_params`: the pieces between `&`s, in order. */
  function ParseQueryParams(query: bytes): seq<Param>
    decreases |query|
  {
    var i := IndexOf(query, AMP);
    ParsePair(query[..i]) + (if i == |query| then [] else ParseQueryParams(query[i + 1..]))
  }

  /** The query part of a URL: what follows its first `?`. */
  function QueryOf(url: bytes): bytes {
    var i := IndexOf(url, QUESTION);
    if i == |url| then [] else url[i + 1..]
  }

  const PEER_ID_FIELD: bytes := Ascii("peer_id")
  const NUMWANT_FIELD: bytes := Ascii("numwant")
  const PEER_ID_LEN: nat := 20

  /** What the capture announce handler keeps of the parameters. */
  datatype Announced = Announced(peerId: bytes, numwant: Option<u32>)

  function ParseU32(s: bytes): Option<u32> {
    match ParseUsize(s)
    case Some(n) => if n < U32_MODULUS then Some(n) else None
    case None => None
  }

  function ReadParam(a: Announced, p: Param): Announced {
    if p.key == PEER_ID_FIELD then
      (if |PercentDecode(p.value)| == PEER_ID_LEN then a.(peerId := PercentDecode(p.value)) else a)
    else if p.key == NUMWANT_FIELD then a.(numwant := ParseU32(p.value))
    else a
  }

  function ReadParams(params: seq<Param>): Announced {
    if params == [] then Announced(seq(PEER_ID_LEN, _ => 0), None)
    else ReadParam(ReadParams(params[..|params| - 1]), params[|params| - 1])
  }

  method ReadAnnounce(query: bytes) returns (a: Announced)
    ensures a == ReadParams(ParseQueryParams(query))
  {
    var params := ParseQueryParams(query);
    a := Announced(seq(PEER_ID_LEN, _ => 0), None);
    for i := 0 to |params|
      invariant a == ReadParams(params[..i])
    {
      assert params[..i + 1][..i] == params[..i];
      a := ReadParam(a, params[i]);
    }
    assert params[..|params|] == params;
  }
}
