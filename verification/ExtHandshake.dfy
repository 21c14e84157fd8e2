/**
 The BEP 10 "handshake message": the dict this peer sends, and the fields the
 capture side of the same server reads out of one it receives.
 */
module ExtHandshake {
  import opened Wrappers
  import opened Bytes
  import opened SortedMap
  import opened Bencode
  import opened BencodeLaws
  import opened BencodeDecoder

  const EXT_HANDSHAKE_ID: byte := 0
  const MAX_PORT: int := 65535

  const K_M: bytes := Ascii("m")
  const K_V: bytes := Ascii("v")
  const K_REQQ: bytes := Ascii("reqq")
  const K_E: bytes := Ascii("e")
  const K_UPLOAD_ONLY: bytes := Ascii("upload_only")
  const K_COMPLETE_AGO: bytes := Ascii("complete_ago")
  const K_YOURIP: bytes := Ascii("yourip")
  const K_P: bytes := Ascii("p")
  const K_METADATA_SIZE: bytes := Ascii("metadata_size")
  const K_IPV4: bytes := Ascii("ipv4")
  const K_IPV6: bytes := Ascii("ipv6")
  const K_SHARE_MODE: bytes := Ascii("share_mode")

  /** The part of an audit's registration that the handshake shows. */
  datatype Registration = Registration(
    vString: bytes,
    mDict: seq<Pair<u32>>,
    reqq: Option<u32>,
    encryptionPreferred: Option<bool>,
    sendUploadOnly: bool,
    sendCompleteAgo: Option<i64>,
    sendYourip: bool)

  /** What Rust's `String` and `BTreeMap<String, u32>` guarantee. */
  ghost predicate ValidRegistration(reg: Registration) {
    && ValidUtf8(reg.vString) && |reg.vString| <= ISIZE_MAX
    && Sorted(reg.mDict)
    && forall p | p in reg.mDict :: ValidUtf8(p.key) && |p.key| <= ISIZE_MAX
  }

  /** What the capture side keeps of a received handshake. */
  datatype Fields = Fields(
    vString: Option<bytes>,
    mDict: Option<seq<Pair<u32>>>,
    reqq: Option<u32>,
    encryptionPreferred: Option<bool>,
    uploadOnly: Option<bool>,
    completeAgo: Option<i64>,
    yourip: Option<bytes>,
    listenPort: Option<nat>,
    metadataSize: Option<nat>,
    ipv4: Option<bytes>,
    ipv6: Option<bytes>,
    shareMode: Option<bool>)

  // ---------- Sending ----------

  function IntEntries(m: seq<Pair<u32>>): (r: seq<Pair<Value>>)
    ensures |r| == |m| && forall i | 0 <= i < |m| :: r[i] == Pair(m[i].key, Int(m[i].value))
  {
    seq(|m|, i requires 0 <= i < |m| => Pair(m[i].key, Int(m[i].value)))
  }

  function Flag(b: bool): Value { Int(if b then 1 else 0) }

  /** The value sent under each key, `None` for an omitted field. */
  function Sent(reg: Registration, peerIp: Option<bytes>, key: bytes): Option<Value> {
    if key == K_M then Some(Dict(Build(IntEntries(reg.mDict))))
    else if key == K_V then Some(Bytes(reg.vString))
    else if key == K_REQQ then (match reg.reqq case Some(n) => Some(Int(n)) case None => None)
    else if key == K_UPLOAD_ONLY then (if reg.sendUploadOnly then Some(Int(1)) else None)
    else if key == K_COMPLETE_AGO then (match reg.sendCompleteAgo case Some(n) => Some(Int(n)) case None => None)
    else if key == K_E then (match reg.encryptionPreferred case Some(b) => Some(Flag(b)) case None => None)
    else if key == K_YOURIP then
      (match peerIp case Some(ip) => if reg.sendYourip then Some(Bytes(ip)) else None case None => None)
    else None
  }

  const SENT_KEYS: seq<bytes> := [K_M, K_V, K_REQQ, K_UPLOAD_ONLY, K_COMPLETE_AGO, K_E, K_YOURIP]

  /** The top-level dict after the first `n` fields have been considered. */
  function SentEntries(reg: Registration, peerIp: Option<bytes>, n: nat): seq<Pair<Value>>
    requires n <= |SENT_KEYS|
  {
    if n == 0 then []
    else
      var rest := SentEntries(reg, peerIp, n - 1);
      match Sent(reg, peerIp, SENT_KEYS[n - 1])
      case Some(v) => Insert(rest, SENT_KEYS[n - 1], v)
      case None => rest
  }

  function Handshake(reg: Registration, peerIp: Option<bytes>): Value {
    Dict(SentEntries(reg, peerIp, |SENT_KEYS|))
  }

  method BuildMDict(mDict: seq<Pair<u32>>) returns (m: seq<Pair<Value>>)
    ensures m == Build(IntEntries(mDict))
  {
    m := [];
    for i := 0 to |mDict|
      invariant m == Build(IntEntries(mDict)[..i])
    {
      assert IntEntries(mDict)[..i + 1][..i] == IntEntries(mDict)[..i];
      m := Insert(m, mDict[i].key, Int(mDict[i].value));
    }
    assert IntEntries(mDict)[..|mDict|] == IntEntries(mDict);
  }

  lemma {:induction false} NothingSent(reg: Registration, peerIp: Option<bytes>)
    ensures SentEntries(reg, peerIp, 0) == []
  {
  }

  lemma {:induction false} SentStep(reg: Registration, peerIp: Option<bytes>, n: nat)
    requires n < |SENT_KEYS|
    ensures SentEntries(reg, peerIp, n + 1)
            == match Sent(reg, peerIp, SENT_KEYS[n])
               case Some(v) => Insert(SentEntries(reg, peerIp, n), SENT_KEYS[n], v)
               case None => SentEntries(reg, peerIp, n)
  {
    hide Sent, Insert;
  }

  lemma {:induction false} SentFields(reg: Registration, peerIp: Option<bytes>)
    ensures SENT_KEYS == [K_M, K_V, K_REQQ, K_UPLOAD_ONLY, K_COMPLETE_AGO, K_E, K_YOURIP]
    ensures Sent(reg, peerIp, K_M) == Some(Dict(Build(IntEntries(reg.mDict))))
    ensures Sent(reg, peerIp, K_V) == Some(Bytes(reg.vString))
    ensures Sent(reg, peerIp, K_REQQ) == if reg.reqq.Some? then Some(Int(reg.reqq.value)) else None
    ensures Sent(reg, peerIp, K_UPLOAD_ONLY) == if reg.sendUploadOnly then Some(Int(1)) else None
    ensures Sent(reg, peerIp, K_COMPLETE_AGO)
            == if reg.sendCompleteAgo.Some? then Some(Int(reg.sendCompleteAgo.value)) else None
    ensures Sent(reg, peerIp, K_E)
            == if reg.encryptionPreferred.Some? then Some(Flag(reg.encryptionPreferred.value)) else None
    ensures Sent(reg, peerIp, K_YOURIP)
            == if peerIp.Some? && reg.sendYourip then Some(Bytes(peerIp.value)) else None
  {
    hide Build, IntEntries, Ascii;
    KeysDiffer();
    assert SENT_KEYS[0] == K_M && SENT_KEYS[1] == K_V && SENT_KEYS[2] == K_REQQ && SENT_KEYS[3] == K_UPLOAD_ONLY
           && SENT_KEYS[4] == K_COMPLETE_AGO && SENT_KEYS[5] == K_E && SENT_KEYS[6] == K_YOURIP;
  }

  /** `build_ext_handshake`: the sub-id byte, then the encoded dict. */
  method BuildExtHandshake(reg: Registration, peerIp: Option<bytes>) returns (payload: bytes)
    ensures payload == [EXT_HANDSHAKE_ID] + Encode(Handshake(reg, peerIp))
  {
    hide Encode, Insert, Build, Sent, SentEntries, Ascii;
    SentFields(reg, peerIp);
    forall n: nat | n < |SENT_KEYS| { SentStep(reg, peerIp, n); }
    NothingSent(reg, peerIp);
    var m := BuildMDict(reg.mDict);
    var top: seq<Pair<Value>> := [];
    top := Insert(top, K_M, Dict(m));
    assert top == SentEntries(reg, peerIp, 1);
    top := Insert(top, K_V, Bytes(reg.vString));
    assert top == SentEntries(reg, peerIp, 2);
    if reg.reqq.Some? { top := Insert(top, K_REQQ, Int(reg.reqq.value)); }
    assert top == SentEntries(reg, peerIp, 3);
    if reg.sendUploadOnly { top := Insert(top, K_UPLOAD_ONLY, Int(1)); }
    assert top == SentEntries(reg, peerIp, 4);
    if reg.sendCompleteAgo.Some? { top := Insert(top, K_COMPLETE_AGO, Int(reg.sendCompleteAgo.value)); }
    assert top == SentEntries(reg, peerIp, 5);
    if reg.encryptionPreferred.Some? { top := Insert(top, K_E, Flag(reg.encryptionPreferred.value)); }
    assert top == SentEntries(reg, peerIp, 6);
    if peerIp.Some? && reg.sendYourip { top := Insert(top, K_YOURIP, Bytes(peerIp.value)); }
    assert top == SentEntries(reg, peerIp, 7);

    var buf := new Buffer();
    buf.Append([EXT_HANDSHAKE_ID]);
    EncodeTo(Dict(top), buf);
    payload := buf.contents;
  }

  // ---------- Receiving ----------

  /** Rust's `i64 as u32`. */
  function AsU32(n: int): u32 { n % U32_MODULUS }

  function AsFlag(v: Option<Value>): Option<bool> {
    match v
    case Some(Int(n)) => Some(n != 0)
    case _ => None
  }

  /** The entries with a text key and an integer value, in order. */
  function TextInts(entries: seq<Pair<Value>>): seq<Pair<u32>> {
    if entries == [] then []
    else
      var first := entries[0];
      (if ValidUtf8(first.key) && first.value.Int? then [Pair(first.key, AsU32(first.value.n))] else [])
      + TextInts(entries[1..])
  }

  function Extract(dict: Value): Fields {
    Fields(
      match dict.Get(K_V) case Some(v) => v.AsStr() case None => None,
      match dict.Get(K_M) case Some(Dict(entries)) => Some(Build(TextInts(entries))) case _ => None,
      match dict.Get(K_REQQ) case Some(Int(n)) => Some(AsU32(n)) case _ => None,
      AsFlag(dict.Get(K_E)),
      AsFlag(dict.Get(K_UPLOAD_ONLY)),
      match dict.Get(K_COMPLETE_AGO) case Some(v) => v.AsInt() case None => None,
      match dict.Get(K_YOURIP) case Some(v) => v.AsBytes() case None => None,
      match dict.Get(K_P) case Some(Int(n)) => (if 0 < n <= MAX_PORT then Some(n) else None) case _ => None,
      match dict.Get(K_METADATA_SIZE) case Some(Int(n)) => (if 0 < n then Some(n) else None) case _ => None,
      match dict.Get(K_IPV4) case Some(Bytes(b)) => (if |b| == 4 then Some(b) else None) case _ => None,
      match dict.Get(K_IPV6) case Some(Bytes(b)) => (if |b| == 16 then Some(b) else None) case _ => None,
      AsFlag(dict.Get(K_SHARE_MODE)))
  }

  /** What the capture side makes of an extended message's body; `None` when it
      is not a handshake or does not decode. */
  function ReadExtHandshake(body: bytes): Option<Fields> {
    if body == [] || body[0] != EXT_HANDSHAKE_ID then None
    else
      match Decode(body[1..])
      case Err(_) => None
      case Ok(dict) => Some(Extract(dict))
  }

  // ---------- One reads what the other sends ----------

  lemma {:induction false} KeysDiffer()
    ensures forall i, j | 0 <= i < j < |SENT_KEYS| :: SENT_KEYS[i] != SENT_KEYS[j]
    ensures K_P !in SENT_KEYS && K_METADATA_SIZE !in SENT_KEYS && K_IPV4 !in SENT_KEYS
    ensures K_IPV6 !in SENT_KEYS && K_SHARE_MODE !in SENT_KEYS
  {
    assert K_M[0] == 109 && K_V[0] == 118 && K_E[0] == 101 && K_P[0] == 112;
    assert K_REQQ[0] == 114 && K_IPV4[0] == 105 && K_IPV6[0] == 105;
  }

  lemma {:induction false} LookupSent(reg: Registration, peerIp: Option<bytes>, n: nat, key: bytes)
    requires n <= |SENT_KEYS|
    ensures Lookup(SentEntries(reg, peerIp, n), key)
            == if key in SENT_KEYS[..n] then Sent(reg, peerIp, key) else None
  {
    hide Sent, Insert;
    if n > 0 {
      var last := SENT_KEYS[n - 1];
      LookupSent(reg, peerIp, n - 1, key);
      assert SENT_KEYS[..n] == SENT_KEYS[..n - 1] + [last];
      if last in SENT_KEYS[..n - 1] { KeysDiffer(); }
      match Sent(reg, peerIp, last)
      case Some(v) => LookupInsert(SentEntries(reg, peerIp, n - 1), last, v, key);
      case None =>
    }
  }

  lemma {:induction false} SentValid(reg: Registration, peerIp: Option<bytes>, key: bytes)
    requires ValidRegistration(reg) && (peerIp.Some? ==> |peerIp.value| <= ISIZE_MAX)
    ensures Sent(reg, peerIp, key).Some? ==> Valid(Sent(reg, peerIp, key).value)
  {
    BuildOfSorted(IntEntries(reg.mDict));
    forall p | p in IntEntries(reg.mDict) ensures |p.key| <= USIZE_MAX && Valid(p.value) {
      var i :| 0 <= i < |reg.mDict| && p == IntEntries(reg.mDict)[i];
      assert reg.mDict[i] in reg.mDict;
    }
  }

  lemma {:induction false} SentEntriesValid(reg: Registration, peerIp: Option<bytes>, n: nat)
    requires n <= |SENT_KEYS| && ValidRegistration(reg) && (peerIp.Some? ==> |peerIp.value| <= ISIZE_MAX)
    ensures Valid(Dict(SentEntries(reg, peerIp, n)))
  {
    hide ValidRegistration, Sent;
    if n > 0 {
      var key := SENT_KEYS[n - 1];
      SentEntriesValid(reg, peerIp, n - 1);
      SentValid(reg, peerIp, key);
      match Sent(reg, peerIp, key)
      case Some(v) =>
        InsertSorted(SentEntries(reg, peerIp, n - 1), key, v);
        InsertKeys(SentEntries(reg, peerIp, n - 1), key, v);
      case None =>
    }
  }

  lemma {:induction false} TextIntsOfIntEntries(m: seq<Pair<u32>>)
    requires forall p | p in m :: ValidUtf8(p.key)
    ensures TextInts(IntEntries(m)) == m
  {
    hide ValidUtf8;
    if m != [] {
      assert m[0] in m;
      assert IntEntries(m)[1..] == IntEntries(m[1..]);
      assert IntEntries(m)[0] == Pair(m[0].key, Int(m[0].value));
      assert AsU32(m[0].value) == m[0].value;
      TextIntsOfIntEntries(m[1..]);
      assert m == [m[0]] + m[1..];
    }
  }

  /** The fields a receiver should end up with. */
  function Shown(reg: Registration, peerIp: Option<bytes>): Fields {
    Fields(
      Some(reg.vString), Some(reg.mDict), reg.reqq, reg.encryptionPreferred,
      if reg.sendUploadOnly then Some(true) else None,
      reg.sendCompleteAgo,
      if reg.sendYourip then peerIp else None,
      None, None, None, None, None)
  }

  lemma {:induction false} GetSent(reg: Registration, peerIp: Option<bytes>, key: bytes)
    ensures Handshake(reg, peerIp).Get(key) == if key in SENT_KEYS then Sent(reg, peerIp, key) else None
  {
    hide Sent, SentEntries;
    LookupSent(reg, peerIp, |SENT_KEYS|, key);
    assert SENT_KEYS[..|SENT_KEYS|] == SENT_KEYS;
  }

  lemma {:induction false} MDictShows(reg: Registration, peerIp: Option<bytes>)
    requires ValidRegistration(reg)
    ensures Extract(Handshake(reg, peerIp)).mDict == Some(reg.mDict)
  {
    hide Handshake, ValidUtf8, TextInts, Build;
    GetSent(reg, peerIp, K_M);
    assert SENT_KEYS[0] == K_M;
    BuildOfSorted(IntEntries(reg.mDict));
    TextIntsOfIntEntries(reg.mDict);
    BuildOfSorted(reg.mDict);
  }

  lemma {:induction false} ExtractShows(reg: Registration, peerIp: Option<bytes>)
    requires ValidRegistration(reg)
    ensures Extract(Handshake(reg, peerIp)) == Shown(reg, peerIp)
  {
    hide Handshake, ValidUtf8, TextInts, Build, Sent, Ascii, IntEntries, SentEntries;
    KeysDiffer();
    SentFields(reg, peerIp);
    MDictShows(reg, peerIp);
    GetSent(reg, peerIp, K_V);
    GetSent(reg, peerIp, K_REQQ);
    GetSent(reg, peerIp, K_E);
    GetSent(reg, peerIp, K_UPLOAD_ONLY);
    GetSent(reg, peerIp, K_COMPLETE_AGO);
    GetSent(reg, peerIp, K_YOURIP);
    GetSent(reg, peerIp, K_P);
    GetSent(reg, peerIp, K_METADATA_SIZE);
    GetSent(reg, peerIp, K_IPV4);
    GetSent(reg, peerIp, K_IPV6);
    GetSent(reg, peerIp, K_SHARE_MODE);
  }

  /** For every registration and peer address, the receiver reads back exactly
      the fields that were sent, and `None` for every omitted one. */
  lemma {:induction false} HandshakeRoundTrip(reg: Registration, peerIp: Option<bytes>)
    requires ValidRegistration(reg) && (peerIp.Some? ==> |peerIp.value| <= ISIZE_MAX)
    requires |Encode(Handshake(reg, peerIp))| <= ISIZE_MAX
    ensures ReadExtHandshake([EXT_HANDSHAKE_ID] + Encode(Handshake(reg, peerIp))) == Some(Shown(reg, peerIp))
  {
    hide Encode, Extract, Shown, ValidRegistration, SentEntries;
    var dict := Handshake(reg, peerIp);
    var body := [EXT_HANDSHAKE_ID] + Encode(dict);
    assert body[1..] == Encode(dict);
    SentEntriesValid(reg, peerIp, |SENT_KEYS|);
    DecodeEncode(dict);
    ExtractShows(reg, peerIp);
  }

  // ---------- Reading what any client sends ----------

  /** A handshake holding any dict at all is read as that dict. */
  lemma {:induction false} HandshakeIsRead(entries: seq<Pair<Value>>)
    requires Valid(Dict(entries)) && |Encode(Dict(entries))| <= USIZE_MAX
    ensures ReadExtHandshake([EXT_HANDSHAKE_ID] + Encode(Dict(entries))) == Some(Extract(Dict(entries)))
  {
    hide Encode, Extract, Valid, Decode;
    DecodeEncode(Dict(entries));
    var body := [EXT_HANDSHAKE_ID] + Encode(Dict(entries));
    assert body[1..] == Encode(Dict(entries));
  }

  lemma {:induction false} EntryRead(entries: seq<Pair<Value>>, name: string)
    requires Sorted(entries)
    ensures forall v: Value :: Dict(entries).Get(Ascii(name)) == Some(v) <==> Has(entries, name, v)
  {
    hide Ascii;
    forall v: Value ensures Dict(entries).Get(Ascii(name)) == Some(v) <==> Has(entries, name, v) {
      LookupIff(entries, Ascii(name), v);
    }
  }

  /** Texts and byte strings are read under their own names, addresses only at
      their proper lengths. */
  lemma {:induction false} StringsRead(entries: seq<Pair<Value>>, s: bytes)
    requires Sorted(entries)
    ensures var f := Extract(Dict(entries));
            && (f.vString == Some(s) <==> Has(entries, "v", Bytes(s)) && ValidUtf8(s))
            && (f.yourip == Some(s) <==> Has(entries, "yourip", Bytes(s)))
            && (f.ipv4 == Some(s) <==> Has(entries, "ipv4", Bytes(s)) && |s| == 4)
            && (f.ipv6 == Some(s) <==> Has(entries, "ipv6", Bytes(s)) && |s| == 16)
  {
    hide Ascii, ValidUtf8, Has, AsFlag, TextInts, Build;
    EntryRead(entries, "v");
    EntryRead(entries, "yourip");
    EntryRead(entries, "ipv4");
    EntryRead(entries, "ipv6");
  }

  /** Numbers likewise: a port in its range, a size if positive, a queue depth in
      32 bits, an age as it is. */
  lemma {:induction false} NumbersRead(entries: seq<Pair<Value>>, n: i64)
    requires Sorted(entries)
    ensures var f := Extract(Dict(entries));
            && (f.listenPort == Some(n) <==> Has(entries, "p", Int(n)) && 1 <= n <= 65535)
            && (f.metadataSize == Some(n) <==> Has(entries, "metadata_size", Int(n)) && n > 0)
            && (f.completeAgo == Some(n) <==> Has(entries, "complete_ago", Int(n)))
            && (Has(entries, "reqq", Int(n)) ==>
                  f.reqq.Some? && (0 <= n < U32_MODULUS ==> f.reqq.value == n)
                  && (f.reqq.value - n) % U32_MODULUS == 0)
            && (f.reqq.Some? ==> exists k: i64 :: Has(entries, "reqq", Int(k)))
  {
    hide Ascii, Has, AsFlag, TextInts, Build;
    EntryRead(entries, "p");
    EntryRead(entries, "metadata_size");
    EntryRead(entries, "complete_ago");
    EntryRead(entries, "reqq");
    Truncated(n);
  }

  lemma {:induction false} Truncated(n: int)
    ensures (AsU32(n) - n) % U32_MODULUS == 0
  {
    var q := n / U32_MODULUS;
    assert AsU32(n) - n == -q * U32_MODULUS;
  }

  /** A flag is set by any integer but zero, and is not read from anything else. */
  ghost predicate FlagRead(entries: seq<Pair<Value>>, name: string, flag: Option<bool>) {
    && (forall n: i64 :: Has(entries, name, Int(n)) ==> flag == Some(n != 0))
    && (flag.Some? ==> exists n: i64 :: Has(entries, name, Int(n)))
  }

  lemma {:induction false} FlagsRead(entries: seq<Pair<Value>>)
    requires Sorted(entries)
    ensures var f := Extract(Dict(entries));
            && FlagRead(entries, "e", f.encryptionPreferred)
            && FlagRead(entries, "upload_only", f.uploadOnly)
            && FlagRead(entries, "share_mode", f.shareMode)
  {
    hide Ascii, Has, TextInts, Build;
    EntryRead(entries, "e");
    EntryRead(entries, "upload_only");
    EntryRead(entries, "share_mode");
  }

  /** The extension map: every text key with an integer, its value in 32 bits,
      and nothing else. */
  lemma {:induction false} ExtensionsRead(entries: seq<Pair<Value>>, m: seq<Pair<Value>>, key: bytes, w: u32)
    requires Sorted(entries) && Has(entries, "m", Dict(m)) && Sorted(m)
    ensures var r := Extract(Dict(entries)).mDict;
            && r.Some? && Sorted(r.value)
            && (Pair(key, w) in r.value
                <==> ValidUtf8(key) && exists n: i64 :: Pair(key, Int(n)) in m && w == AsU32(n))
  {
    hide Ascii, Has, AsFlag, ValidUtf8, TextInts, AsU32;
    EntryRead(entries, "m");
    TextIntsAre(m, key, w);
    TextIntsSorted(m);
    BuildOfSorted(TextInts(m));
  }

  lemma {:induction false} TextIntsAre(m: seq<Pair<Value>>, key: bytes, w: u32)
    ensures Pair(key, w) in TextInts(m)
            <==> ValidUtf8(key) && exists n: i64 :: Pair(key, Int(n)) in m && w == AsU32(n)
  {
    hide ValidUtf8, AsU32;
    if m != [] {
      assert m == [m[0]] + m[1..];
      TextIntsAre(m[1..], key, w);
    }
  }

  lemma {:induction false} TextIntsSorted(m: seq<Pair<Value>>)
    requires Sorted(m)
    ensures Sorted(TextInts(m))
  {
    hide ValidUtf8, AsU32, Less;
    if m != [] {
      TextIntsSorted(m[1..]);
      var rest := TextInts(m[1..]);
      forall j | 0 <= j < |rest| ensures Less(m[0].key, rest[j].key) {
        TextIntsAre(m[1..], rest[j].key, rest[j].value);
        assert rest[j] in rest;
        var n: i64 :| Pair(rest[j].key, Int(n)) in m[1..];
        var i :| 1 <= i < |m| && m[i] == Pair(rest[j].key, Int(n));
        assert Less(m[0].key, m[i].key);
      }
    }
  }
}
