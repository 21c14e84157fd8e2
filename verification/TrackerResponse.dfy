/**
 Tracker responses: the one the capture tracker sends, and what an announcing
 session reads out of any response.
 */
module TrackerResponse {
  import opened Wrappers
  import opened Bytes
  import opened Decimal
  import opened SortedMap
  import opened Bencode
  import opened BencodeLaws
  import opened BencodeDecoder

  const K_FAILURE_REASON: bytes := Ascii("failure reason")
  const K_INTERVAL: bytes := Ascii("interval")
  const K_MIN_INTERVAL: bytes := Ascii("min interval")
  const K_COMPLETE: bytes := Ascii("complete")
  const K_INCOMPLETE: bytes := Ascii("incomplete")
  const K_PEERS: bytes := Ascii("peers")
  const K_PEERS6: bytes := Ascii("peers6")
  const K_IP: bytes := Ascii("ip")
  const K_PORT: bytes := Ascii("port")

  const COMPACT_IPV4_PEER_LEN: nat := 6
  const COMPACT_IPV6_PEER_LEN: nat := 18

  datatype Bounds = Bounds(minSecs: u32, maxSecs: u32, defaultSecs: u32)

  datatype Response = Response(
    interval: u32, minInterval: Option<u32>, seeders: i64, leechers: i64, peerCount: nat,
    failureReason: Option<bytes>)

  // ---------- Reading ----------

  function Clamp(n: int, lo: int, hi: int): (r: int)
    requires lo <= hi
    ensures lo <= r <= hi && (lo <= n <= hi ==> r == n)
  {
    if n < lo then lo else if n > hi then hi else n
  }

  /** Peers of the dictionary model. */
  function CountDicts(list: seq<Value>): (r: nat)
    ensures r <= |list|
  {
    if list == [] then 0
    else
      var last := list[|list| - 1];
      CountDicts(list[..|list| - 1]) + if GetStr(last, K_IP).Some? && GetInt(last, K_PORT).Some? then 1 else 0
  }

  /** Peers under `peers`, in either model. */
  function CountMain(root: Value): nat {
    match root.Get(K_PEERS)
    case Some(Bytes(raw)) => |raw| / COMPACT_IPV4_PEER_LEN
    case Some(List(list)) => CountDicts(list)
    case _ => 0
  }

  function CountIpv6(root: Value): nat {
    match root.Get(K_PEERS6)
    case Some(Bytes(raw)) => |raw| / COMPACT_IPV6_PEER_LEN
    case _ => 0
  }

  /** `parse_peers`. */
  function CountPeers(root: Value): nat {
    CountMain(root) + CountIpv6(root)
  }

  function OrElse(n: Option<i64>, d: i64): i64 {
    match n case Some(x) => x case None => d
  }

  /** `parse_response`; `None` when the body is not a dict. */
  function Read(body: bytes, b: Bounds): Option<Response>
    requires b.minSecs <= b.maxSecs
  {
    match Decode(body)
    case Ok(Dict(entries)) =>
      var root := Dict(entries);
      var least := GetInt(root, K_MIN_INTERVAL);
      Some(Response(
        Clamp(OrElse(GetInt(root, K_INTERVAL), b.defaultSecs), b.minSecs, b.maxSecs),
        if least.Some? && least.value > 0 then Some(least.value % U32_MODULUS) else None,
        OrElse(GetInt(root, K_COMPLETE), 0), OrElse(GetInt(root, K_INCOMPLETE), 0),
        CountPeers(root), GetStr(root, K_FAILURE_REASON)))
    case _ => None
  }

  method ParsePeers(root: Value) returns (count: nat)
    ensures count == CountPeers(root)
  {
    hide GetStr, GetInt;
    count := 0;
    match root.Get(K_PEERS) {
      case Some(Bytes(raw)) => count := |raw| / COMPACT_IPV4_PEER_LEN;
      case Some(List(list)) =>
        for i := 0 to |list|
          invariant count == CountDicts(list[..i])
        {
          assert list[..i + 1][..i] == list[..i];
          if GetStr(list[i], K_IP).Some? && GetInt(list[i], K_PORT).Some? { count := count + 1; }
        }
        assert list[..|list|] == list;
      case _ =>
    }
    match root.Get(K_PEERS6) {
      case Some(Bytes(raw)) => count := count + |raw| / COMPACT_IPV6_PEER_LEN;
      case _ =>
    }
  }

  /** `effective_interval`. */
  function Effective(r: Response): u32 {
    if r.minInterval.Some? && r.minInterval.value > r.interval then r.minInterval.value else r.interval
  }

  /** Whatever a tracker answers, announces keep to the configured minimum; they
      keep to the tracker's own minimum exactly when that fits 32 bits, because
      it is truncated to them. */
  lemma {:induction false} EffectiveInterval(body: bytes, b: Bounds)
    requires b.minSecs <= b.maxSecs && Read(body, b).Some?
    ensures Effective(Read(body, b).value) >= b.minSecs
    ensures var least := GetInt(Decode(body).value, K_MIN_INTERVAL);
            least.Some? && least.value > 0 ==>
              (Effective(Read(body, b).value) >= least.value <==> least.value < U32_MODULUS)
  {
    hide Decode, CountPeers;
  }

  /** A response asking for one second more than 32 bits can hold. */
  function HugeMinimum(): bytes {
    Encode(Dict([Pair(K_MIN_INTERVAL, Int(U32_MODULUS + 1))]))
  }

  /** It is read as a minimum of one second. */
  lemma {:induction false} HugeMinimumTruncated(b: Bounds)
    requires b.minSecs <= b.maxSecs
    ensures Read(HugeMinimum(), b).Some? && Read(HugeMinimum(), b).value.minInterval == Some(1)
    ensures GetInt(Decode(HugeMinimum()).value, K_MIN_INTERVAL) == Some(U32_MODULUS + 1)
    ensures Effective(Read(HugeMinimum(), b).value) < U32_MODULUS + 1
  {
    hide Encode, Decode, NatText, CountPeers, Ascii;
    var entry := Pair(K_MIN_INTERVAL, Int(U32_MODULUS + 1));
    assert [entry] + [] == [entry];
    EntriesSize(entry, []);
    EncodedSmall(entry);
    DecodeEncode(Dict([entry]));
    assert Decode(HugeMinimum()).value.Get(K_MIN_INTERVAL) == Some(entry.value);
  }

  lemma {:induction false} EncodedSmall(entry: Pair<Value>)
    requires entry == Pair(K_MIN_INTERVAL, Int(U32_MODULUS + 1))
    ensures |Encode(Dict([entry]))| <= USIZE_MAX
  {
    hide NatText, Ascii;
    NatTextLength(U32_MODULUS + 1);
    NatTextLength(|K_MIN_INTERVAL|);
    assert [entry] + [] == [entry];
    EntriesSize(entry, []);
  }

  // ---------- Sending ----------

  /** A compact peer: four address bytes and the port, high byte first. */
  function Compact(ip: bytes, port: nat): (raw: bytes)
    requires |ip| == 4 && port < 0x1_0000
    ensures |raw| == COMPACT_IPV4_PEER_LEN && raw[..4] == ip && raw[4] as int * 256 + raw[5] == port
  {
    ip + [port / 256, port % 256]
  }

  /** The capture tracker's answer: one seeder, one leecher, and us as the peer. */
  function Offer(ip: bytes, port: nat, intervalSecs: i64): Value
    requires |ip| == 4 && port < 0x1_0000
  {
    Dict(Insert(Insert(Insert(Insert([],
      K_COMPLETE, Int(1)),
      K_INCOMPLETE, Int(1)),
      K_INTERVAL, Int(intervalSecs)),
      K_PEERS, Bytes(Compact(ip, port))))
  }

  /** `build_tracker_response`; the interval is cast from u64 as Rust does. */
  method BuildTrackerResponse(ip: bytes, port: nat, intervalSecs: u64) returns (body: bytes)
    requires |ip| == 4 && port < 0x1_0000
    ensures body == Encode(Offer(ip, port, AsI64(intervalSecs)))
  {
    hide Encode, Insert;
    var top: seq<Pair<Value>> := [];
    top := Insert(top, K_COMPLETE, Int(1));
    top := Insert(top, K_INCOMPLETE, Int(1));
    top := Insert(top, K_INTERVAL, Int(AsI64(intervalSecs)));
    var peers := Compact(ip, port);
    top := Insert(top, K_PEERS, Bytes(peers));
    body := EncodeValue(Dict(top));
  }

  const OFFER_KEYS: seq<bytes> := [K_COMPLETE, K_INCOMPLETE, K_INTERVAL, K_PEERS]

  lemma {:induction false} KeysDiffer()
    ensures K_COMPLETE != K_INCOMPLETE && K_COMPLETE != K_INTERVAL && K_COMPLETE != K_PEERS
    ensures K_INCOMPLETE != K_INTERVAL && K_INCOMPLETE != K_PEERS && K_INTERVAL != K_PEERS
    ensures K_MIN_INTERVAL !in OFFER_KEYS && K_PEERS6 !in OFFER_KEYS && K_FAILURE_REASON !in OFFER_KEYS
  {
    assert K_COMPLETE[0] == 99 && K_PEERS[0] == 112 && K_MIN_INTERVAL[0] == 109 && K_FAILURE_REASON[0] == 102;
    assert K_INTERVAL[0] == 105 && K_INCOMPLETE[0] == 105;
  }

  lemma {:induction false} OfferValid(ip: bytes, port: nat, intervalSecs: i64)
    requires |ip| == 4 && port < 0x1_0000
    ensures Valid(Offer(ip, port, intervalSecs))
  {
    hide Insert;
    var peers := Bytes(Compact(ip, port));
    var m1 := Insert<Value>([], K_COMPLETE, Int(1));
    var m2 := Insert(m1, K_INCOMPLETE, Int(1));
    var m3 := Insert(m2, K_INTERVAL, Int(intervalSecs));
    Added([], K_COMPLETE, Int(1));
    Added(m1, K_INCOMPLETE, Int(1));
    Added(m2, K_INTERVAL, Int(intervalSecs));
    Added(m3, K_PEERS, peers);
  }

  lemma {:induction false} Added(m: seq<Pair<Value>>, key: bytes, value: Value)
    requires Valid(Dict(m)) && Valid(value) && |key| <= USIZE_MAX
    ensures Valid(Dict(Insert(m, key, value)))
  {
    InsertSorted(m, key, value);
    InsertKeys(m, key, value);
  }

  lemma {:induction false} OfferFields(ip: bytes, port: nat, intervalSecs: i64, key: bytes)
    requires |ip| == 4 && port < 0x1_0000
    ensures Offer(ip, port, intervalSecs).Get(key)
            == if key == K_PEERS then Some(Bytes(Compact(ip, port)))
               else if key == K_INTERVAL then Some(Int(intervalSecs))
               else if key == K_INCOMPLETE || key == K_COMPLETE then Some(Int(1))
               else None
  {
    hide Insert;
    var m1 := Insert<Value>([], K_COMPLETE, Int(1));
    var m2 := Insert(m1, K_INCOMPLETE, Int(1));
    var m3 := Insert(m2, K_INTERVAL, Int(intervalSecs));
    LookupInsert<Value>([], K_COMPLETE, Int(1), key);
    LookupInsert(m1, K_INCOMPLETE, Int(1), key);
    LookupInsert(m2, K_INTERVAL, Int(intervalSecs), key);
    LookupInsert(m3, K_PEERS, Bytes(Compact(ip, port)), key);
  }

  /** What the capture tracker sends, an announcing session reads as one seeder,
      one leecher, one peer, no failure, and the interval held to its bounds; the
      peer is our address with the port in network order. */
  lemma {:induction false} OfferReadsBack(ip: bytes, port: nat, intervalSecs: i64, b: Bounds)
    requires |ip| == 4 && port < 0x1_0000 && b.minSecs <= b.maxSecs
    requires |Encode(Offer(ip, port, intervalSecs))| <= ISIZE_MAX
    ensures Read(Encode(Offer(ip, port, intervalSecs)), b)
            == Some(Response(Clamp(intervalSecs, b.minSecs, b.maxSecs), None, 1, 1, 1, None))
    ensures Decode(Encode(Offer(ip, port, intervalSecs))).value.Get(K_PEERS) == Some(Bytes(Compact(ip, port)))
  {
    hide Encode, Offer, Decode, Compact;
    KeysDiffer();
    OfferFields(ip, port, intervalSecs, K_PEERS);
    OfferFields(ip, port, intervalSecs, K_PEERS6);
    OfferFields(ip, port, intervalSecs, K_INTERVAL);
    OfferFields(ip, port, intervalSecs, K_MIN_INTERVAL);
    OfferFields(ip, port, intervalSecs, K_COMPLETE);
    OfferFields(ip, port, intervalSecs, K_INCOMPLETE);
    OfferFields(ip, port, intervalSecs, K_FAILURE_REASON);
    OfferValid(ip, port, intervalSecs);
    DecodeEncode(Offer(ip, port, intervalSecs));
    assert Offer(ip, port, intervalSecs).Dict?;
  }

  // ---------- Reading any response ----------

  /** The integer of an entry, or a default where there is none. */
  ghost predicate IntUnder(entries: seq<Pair<Value>>, name: string, n: i64, default: i64) {
    Has(entries, name, Int(n)) || (n == default && forall k: i64 :: !Has(entries, name, Int(k)))
  }

  lemma {:induction false} IntRead(entries: seq<Pair<Value>>, name: string, default: i64)
    requires Sorted(entries)
    ensures IntUnder(entries, name, OrElse(GetInt(Dict(entries), Ascii(name)), default), default)
    ensures forall n: i64 :: GetInt(Dict(entries), Ascii(name)) == Some(n) <==> Has(entries, name, Int(n))
  {
    hide Ascii;
    forall n: i64 ensures GetInt(Dict(entries), Ascii(name)) == Some(n) <==> Has(entries, name, Int(n)) {
      LookupIff(entries, Ascii(name), Int(n));
    }
  }

  /** Reading starts from the dict that was encoded. */
  lemma {:induction false} ReadsTheDict(entries: seq<Pair<Value>>, b: Bounds)
    requires b.minSecs <= b.maxSecs && Valid(Dict(entries)) && |Encode(Dict(entries))| <= USIZE_MAX
    ensures Read(Encode(Dict(entries)), b).Some?
    ensures var r, root := Read(Encode(Dict(entries)), b).value, Dict(entries);
            && r.seeders == OrElse(GetInt(root, K_COMPLETE), 0) && r.leechers == OrElse(GetInt(root, K_INCOMPLETE), 0)
            && r.interval == Clamp(OrElse(GetInt(root, K_INTERVAL), b.defaultSecs), b.minSecs, b.maxSecs)
            && r.minInterval == (var least := GetInt(root, K_MIN_INTERVAL);
                                 if least.Some? && least.value > 0 then Some(least.value % U32_MODULUS) else None)
            && r.peerCount == CountPeers(root) && r.failureReason == GetStr(root, K_FAILURE_REASON)
  {
    hide Encode, Decode, CountPeers, Ascii, Clamp, GetInt, GetStr, OrElse, Valid;
    DecodeEncode(Dict(entries));
  }

  /** Whatever dict a tracker sends, in bencode, each entry is read under its own
      name: `complete` counts seeders and `incomplete` leechers, zero if absent. */
  lemma {:induction false} SwarmRead(entries: seq<Pair<Value>>, b: Bounds)
    requires b.minSecs <= b.maxSecs && Valid(Dict(entries)) && |Encode(Dict(entries))| <= USIZE_MAX
    ensures Read(Encode(Dict(entries)), b).Some?
    ensures IntUnder(entries, "complete", Read(Encode(Dict(entries)), b).value.seeders, 0)
    ensures IntUnder(entries, "incomplete", Read(Encode(Dict(entries)), b).value.leechers, 0)
  {
    hide Encode, Read, Ascii, GetInt, OrElse;
    ReadsTheDict(entries, b);
    IntRead(entries, "complete", 0);
    IntRead(entries, "incomplete", 0);
  }

  /** The interval is the one sent, or the default one, held to the bounds; a
      minimum counts only if it is positive. */
  lemma {:induction false} IntervalsRead(entries: seq<Pair<Value>>, b: Bounds, sent: i64)
    requires b.minSecs <= b.maxSecs && Valid(Dict(entries)) && |Encode(Dict(entries))| <= USIZE_MAX
    requires IntUnder(entries, "interval", sent, b.defaultSecs)
    ensures Read(Encode(Dict(entries)), b).Some?
    ensures var interval := Read(Encode(Dict(entries)), b).value.interval;
            if sent < b.minSecs then interval == b.minSecs
            else if sent > b.maxSecs then interval == b.maxSecs
            else interval == sent
    ensures var least := Read(Encode(Dict(entries)), b).value.minInterval;
            && (least.Some? <==> exists n: i64 | n > 0 :: Has(entries, "min interval", Int(n)))
            && (forall n: i64 | 0 < n < U32_MODULUS :: Has(entries, "min interval", Int(n)) ==> least == Some(n))
  {
    hide Encode, Read, Ascii, GetInt, Has;
    ReadsTheDict(entries, b);
    IntRead(entries, "interval", b.defaultSecs);
    IntRead(entries, "min interval", 0);
    var least := GetInt(Dict(entries), K_MIN_INTERVAL);
    if least.Some? { assert Has(entries, "min interval", Int(least.value)); }
  }

  /** A failure reason is read if it is text. */
  lemma {:induction false} FailureRead(entries: seq<Pair<Value>>, b: Bounds, text: bytes)
    requires b.minSecs <= b.maxSecs && Valid(Dict(entries)) && |Encode(Dict(entries))| <= USIZE_MAX
    ensures Read(Encode(Dict(entries)), b).Some?
    ensures Read(Encode(Dict(entries)), b).value.failureReason == Some(text)
            <==> Has(entries, "failure reason", Bytes(text)) && ValidUtf8(text)
  {
    hide Encode, Read, Ascii, ValidUtf8;
    ReadsTheDict(entries, b);
    LookupIff(entries, K_FAILURE_REASON, Bytes(text));
  }

  /** A peer of the dictionary model: a text address and an integer port. */
  ghost predicate IsPeer(v: Value) {
    && v.Dict?
    && (exists ip: bytes :: ValidUtf8(ip) && Has(v.entries, "ip", Bytes(ip)))
    && exists port: i64 :: Has(v.entries, "port", Int(port))
  }

  /** Lists of peer dicts count one by one, in any split. */
  lemma {:induction false} PeersAddUp(a: seq<Value>, b: seq<Value>)
    ensures CountDicts(a + b) == CountDicts(a) + CountDicts(b)
  {
    hide GetStr, GetInt;
    if b == [] {
      assert a + b == a;
    } else {
      PeersAddUp(a, b[..|b| - 1]);
      assert (a + b)[..|a + b| - 1] == a + b[..|b| - 1];
    }
  }

  lemma {:induction false} OnePeer(v: Value)
    requires Valid(v)
    ensures CountDicts([v]) == if IsPeer(v) then 1 else 0
  {
    hide Ascii, ValidUtf8;
    assert [v][..0] == [];
    if v.Dict? {
      IntRead(v.entries, "port", 0);
      forall ip: bytes ensures Lookup(v.entries, K_IP) == Some(Bytes(ip)) <==> Has(v.entries, "ip", Bytes(ip)) {
        LookupIff(v.entries, K_IP, Bytes(ip));
      }
    }
  }

  /** A string of `n` whole records under this name, or none. */
  ghost predicate Records(entries: seq<Pair<Value>>, name: string, size: nat, n: nat) {
    || (exists raw: bytes :: Has(entries, name, Bytes(raw)) && size * n <= |raw| < size * n + size)
    || (n == 0 && forall raw: bytes :: !Has(entries, name, Bytes(raw)))
  }

  lemma {:induction false} RecordsCounted(entries: seq<Pair<Value>>, name: string, size: nat, n: nat)
    requires Sorted(entries) && Records(entries, name, size, n) && size > 0
    ensures match Dict(entries).Get(Ascii(name))
            case Some(Bytes(raw)) => |raw| / size == n
            case _ => n == 0
  {
    hide Ascii;
    var found := Dict(entries).Get(Ascii(name));
    if found.Some? { LookupIff(entries, Ascii(name), found.value); }
    forall raw: bytes ensures found == Some(Bytes(raw)) <==> Has(entries, name, Bytes(raw)) {
      LookupIff(entries, Ascii(name), Bytes(raw));
    }
    if found.Some? && found.value.Bytes? { Whole(|found.value.b|, size, n); }
  }

  lemma {:induction false} Whole(m: nat, size: nat, n: nat)
    requires size > 0
    ensures size * n <= m < size * n + size ==> m / size == n
  {
    Steps(size, m / size, n);
    Steps(size, n, m / size);
  }

  lemma {:induction false} Steps(size: nat, q: nat, n: nat)
    ensures q < n ==> size * q + size <= size * n
  {
    if q < n { assert size * n == size * q + size + size * (n - q - 1); }
  }

  /** Compact peers are counted by whole records, six bytes each for IPv4 and
      eighteen for IPv6; a list of dicts by its peers. */
  lemma {:induction false} PeersRead(entries: seq<Pair<Value>>, n4: nat, n6: nat)
    requires Sorted(entries) && Records(entries, "peers6", 18, n6)
    ensures forall list: seq<Value> :: Has(entries, "peers", List(list)) ==>
              CountPeers(Dict(entries)) == CountDicts(list) + n6
    ensures Records(entries, "peers", 6, n4) && (forall list: seq<Value> :: !Has(entries, "peers", List(list)))
            ==> CountPeers(Dict(entries)) == n4 + n6
  {
    hide Ascii, CountDicts, Records, Lookup;
    RecordsCounted(entries, "peers6", 18, n6);
    if Records(entries, "peers", 6, n4) { RecordsCounted(entries, "peers", 6, n4); }
    forall list: seq<Value> ensures Lookup(entries, K_PEERS) == Some(List(list)) <==> Has(entries, "peers", List(list)) {
      LookupIff(entries, K_PEERS, List(list));
    }
  }
}
