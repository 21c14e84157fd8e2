/**
 `info_hash`: a second, shallower walk over the raw bytes that hashes the slice
 holding the `info` value, and how that slice relates to the decoded tree.
 SHA-1 is a parameter.
 */
module InfoHash {
  import opened Wrappers
  import opened Bytes
  import opened SortedMap
  import opened Bencode
  import opened BencodeLaws
  import opened BencodeDecoder

  const K_INFO: bytes := Ascii("info")

  datatype HashError =
    | NotADict
    | UnterminatedTorrent
    | NoInfo
    | Malformed(error: Error)

  /** The slice the walk hashes, from `pos` on. */
  function FindInfo(data: bytes, pos: nat): (r: Result<(nat, nat), HashError>)
    requires pos <= |data|
    ensures r.Ok? ==> pos < r.value.0 < r.value.1 <= |data|
    decreases |data| - pos
  {
    if pos == |data| then Result.Err(UnterminatedTorrent)
    else if data[pos] == END_MARK then Result.Err(NoInfo)
    else
      match ParseEntry(data, pos)
      case Fail(e) => Result.Err(Malformed(e))
      case Done(entry, next) =>
        if entry.key == K_INFO then Result.Ok((entry.start, entry.end)) else FindInfo(data, next)
  }

  function InfoSlice(data: bytes): (r: Result<(nat, nat), HashError>)
    ensures r.Ok? ==> 0 < r.value.0 < r.value.1 <= |data|
  {
    if data == [] || data[0] != DICT_MARK then Result.Err(NotADict) else FindInfo(data, 1)
  }

  /** The walk itself. */
  method ComputeInfoHash<H>(data: bytes, sha1: bytes -> H) returns (r: Result<H, HashError>)
    ensures match InfoSlice(data)
            case Ok((start, end)) => r == Result.Ok(sha1(data[start..end]))
            case Err(e) => r == Result.Err(e)
  {
    hide ParseValue, ParseBytes;
    var dec := new Decoder(data);
    if data == [] || data[0] != DICT_MARK { return Result.Err(NotADict); }
    dec.pos := dec.pos + 1;
    while dec.pos == |data| || data[dec.pos] != END_MARK
      invariant dec.data == data && 1 <= dec.pos <= |data|
      invariant InfoSlice(data) == FindInfo(data, dec.pos)
      decreases |data| - dec.pos
    {
      if dec.pos == |data| { return Result.Err(UnterminatedTorrent); }
      ghost var pos := dec.pos;
      var key := dec.DecodeBytes();
      if key.Err? { return Result.Err(Malformed(key.error)); }
      var start := dec.pos;
      var val := dec.DecodeValue();
      if val.Err? { return Result.Err(Malformed(val.error)); }
      EntryReads(data, pos, RawEntry(key.value, val.value, start, dec.pos));
      if key.value == K_INFO { return Result.Ok(sha1(data[start..dec.pos])); }
    }
    return Result.Err(NoInfo);
  }

  // ---------- The walk against the decoded tree ----------

  /** The entries of the top-level dict, in the order read. */
  function TopEntries(data: bytes): seq<RawEntry> {
    if data != [] && data[0] == DICT_MARK && ParseEntries(data, 1).Done? then ParseEntries(data, 1).value else []
  }

  /** The first entry with a given key, if any. */
  function First(raw: seq<RawEntry>, key: bytes): (i: nat)
    ensures i <= |raw| && (i < |raw| ==> raw[i].key == key)
    ensures forall j | 0 <= j < i :: raw[j].key != key
  {
    if raw == [] || raw[0].key == key then 0 else 1 + First(raw[1..], key)
  }

  /** The last entry with a given key. */
  function Last(raw: seq<RawEntry>, key: bytes): (i: nat)
    requires First(raw, key) < |raw|
    ensures i < |raw| && raw[i].key == key
    ensures forall j | i < j < |raw| :: raw[j].key != key
  {
    var n := |raw| - 1;
    if raw[n].key == key then n
    else
      assert First(raw[..n], key) < n by {
        var i := First(raw, key);
        assert raw[..n][i].key == key;
      }
      Last(raw[..n], key)
  }

  /** The bytes `start..end`, read alone and in full, are `v`; and they are
      its encoding exactly when they are canonical. */
  ghost predicate SliceHolds(data: bytes, start: nat, end: nat, v: Value) {
    && start <= end <= |data|
    && ParseValue(data, start) == Done(v, end)
    && ParseValue(data[start..end], 0) == Done(v, end - start)
    && (Encode(v) == data[start..end] <==> Canonical(data, start))
  }

  lemma {:induction false} EntrySlice(data: bytes, pos: nat, entry: RawEntry)
    requires pos <= |data| <= USIZE_MAX && ParseEntry(data, pos) == Done(entry, entry.end)
    ensures entry.start < entry.end <= |data| && SliceHolds(data, entry.start, entry.end, entry.value)
  {
    hide ParseValue, ParseBytes, Canonical, Encode;
    EntryReads(data, pos, entry);
    DecodesAlone(data, entry.start);
    ReencodesIffCanonical(data, entry.start);
  }

  lemma {:induction false} WalkFindsFirst(data: bytes, pos: nat)
    requires pos <= |data| <= USIZE_MAX && ParseEntries(data, pos).Done?
    ensures var raw := ParseEntries(data, pos).value;
            var i := First(raw, K_INFO);
            if i < |raw| then
              && FindInfo(data, pos) == Result.Ok((raw[i].start, raw[i].end))
              && SliceHolds(data, raw[i].start, raw[i].end, raw[i].value)
            else FindInfo(data, pos) == Result.Err(NoInfo)
    decreases |data| - pos
  {
    hide ParseValue, ParseBytes, ParseEntry, SliceHolds;
    if data[pos] != END_MARK {
      var entry := ParseEntry(data, pos).value;
      var tail := ParseEntries(data, entry.end).value;
      EntrySlice(data, pos, entry);
      assert ([entry] + tail)[1..] == tail;
      WalkFindsFirst(data, entry.end);
    }
  }

  /** Decoding to a dict means the bytes are `d`, entries, `e`. */
  lemma {:induction false} DictIsEntries(data: bytes)
    requires Decode(data).Ok? && Decode(data).value.Dict?
    ensures data != [] && data[0] == DICT_MARK && ParseEntries(data, 1).Done?
    ensures Decode(data).value == Dict(Build(Pairs(TopEntries(data))))
  {
  }

  /** On every decodable torrent: the walk succeeds exactly when the tree holds
      `info`; it hashes the first `info` read while the tree keeps the last. */
  lemma {:induction false} WalkAgainstTree(data: bytes)
    requires |data| <= USIZE_MAX && Decode(data).Ok? && Decode(data).value.Dict?
    ensures var raw := TopEntries(data);
            var i := First(raw, K_INFO);
            if i < |raw| then
              && InfoSlice(data) == Result.Ok((raw[i].start, raw[i].end))
              && SliceHolds(data, raw[i].start, raw[i].end, raw[i].value)
              && Decode(data).value.Get(K_INFO) == Some(raw[Last(raw, K_INFO)].value)
            else InfoSlice(data) == Result.Err(NoInfo) && Decode(data).value.Get(K_INFO) == None
  {
    hide ParseEntries, ParseValue, Canonical, Encode;
    DictIsEntries(data);
    var raw := TopEntries(data);
    WalkFindsFirst(data, 1);
    if First(raw, K_INFO) < |raw| {
      BuildKeepsLast(Pairs(raw), Last(raw, K_INFO));
    } else {
      BuildAbsent(Pairs(raw), K_INFO);
    }
  }

  /** The hash is taken over the decoded `info` value exactly when the first
      and the last `info` entries hold the same value. */
  lemma {:induction false} HashesTheInfoValueIff(data: bytes, start: nat, end: nat, info: Value)
    requires |data| <= USIZE_MAX && Decode(data).Ok? && Decode(data).value.Dict?
    requires InfoSlice(data) == Result.Ok((start, end)) && Decode(data).value.Get(K_INFO) == Some(info)
    ensures var raw := TopEntries(data);
            First(raw, K_INFO) < |raw|
            && (SliceHolds(data, start, end, info) <==> raw[First(raw, K_INFO)].value == raw[Last(raw, K_INFO)].value)
  {
    hide ParseEntries, ParseValue, Canonical, Encode, Decode, InfoSlice;
    WalkAgainstTree(data);
  }

  /** In particular with no repeated `info` key. */
  lemma {:induction false} HashesTheInfoValue(data: bytes)
    requires |data| <= USIZE_MAX && Decode(data).Ok? && Decode(data).value.Get(K_INFO).Some?
    requires forall i, j | 0 <= i < j < |TopEntries(data)| ::
               TopEntries(data)[i].key == TopEntries(data)[j].key ==> TopEntries(data)[i].key != K_INFO
    ensures InfoSlice(data).Ok?
    ensures SliceHolds(data, InfoSlice(data).value.0, InfoSlice(data).value.1, Decode(data).value.Get(K_INFO).value)
  {
    hide ParseEntries, ParseValue, Canonical, Encode, Decode, InfoSlice, TopEntries;
    WalkAgainstTree(data);
    var raw := TopEntries(data);
    assert First(raw, K_INFO) == Last(raw, K_INFO);
  }

  lemma {:induction false} CanonicalParts(data: bytes, pos: nat, i: nat)
    requires pos <= |data| && ParseEntries(data, pos).Done? && CanonicalEntries(data, pos)
    requires i < |ParseEntries(data, pos).value|
    ensures var e := ParseEntries(data, pos).value[i];
            e.start <= |data| && ParseValue(data, e.start).Done? && Canonical(data, e.start)
    decreases |data| - pos
  {
    hide ParseValue, ParseBytes, Canonical, CanonicalLength;
    var entry := ParseEntry(data, pos).value;
    EntryReads(data, pos, entry);
    if i > 0 { CanonicalParts(data, entry.end, i - 1); }
  }

  /** Of a file the encoder wrote, the walk hashes the encoding of `info`. */
  lemma {:induction false} HashOfEncoded(v: Value, info: Value)
    requires Valid(v) && |Encode(v)| <= USIZE_MAX && v.Get(K_INFO) == Some(info)
    ensures InfoSlice(Encode(v)).Ok?
    ensures var (start, end) := InfoSlice(Encode(v)).value;
            Encode(v)[start..end] == Encode(info)
  {
    hide ParseValue, ParseEntries, Encode, InfoSlice, CanonicalEntries, Canonical, Decode, Valid, Build, Less, Lookup;
    var data := Encode(v);
    EncodedDict(v);
    WalkAgainstTree(data);
    var raw := TopEntries(data);
    OnlyOne(raw);
    CanonicalParts(data, 1, First(raw, K_INFO));
  }

  lemma {:induction false} OnlyOne(raw: seq<RawEntry>)
    requires Sorted(Pairs(raw)) && First(raw, K_INFO) < |raw|
    ensures First(raw, K_INFO) == Last(raw, K_INFO)
  {
    var i, j := First(raw, K_INFO), Last(raw, K_INFO);
    assert Pairs(raw)[i].key == K_INFO && Pairs(raw)[j].key == K_INFO;
    LessIrreflexive(K_INFO);
  }

  lemma {:induction false} EncodedDict(v: Value)
    requires Valid(v) && v.Dict? && |Encode(v)| <= USIZE_MAX
    ensures Decode(Encode(v)) == Result.Ok(v)
    ensures var data := Encode(v);
            && |data| > 0 && data[0] == DICT_MARK && ParseEntries(data, 1).Done?
            && CanonicalEntries(data, 1) && Sorted(Pairs(TopEntries(data)))
  {
    hide ParseValue, ParseBytes, ParseEntries, EncodeEntries;
    var data := Encode(v);
    DecodeEncode(v);
    AtSelf(data);
    AtConcat(data, 0, [DICT_MARK], EncodeEntries(v.entries));
    AtFirst(data, 0, [DICT_MARK]);
    EntriesRoundTrip(v.entries, data, 1);
  }

  /** `d`, an `info` entry, another one, `e`, at the given positions. */
  ghost predicate TwoInfos(data: bytes, e1: RawEntry, e2: RawEntry) {
    && e1.key == K_INFO && e2.key == K_INFO && Valid(e1.value) && Valid(e2.value)
    && e1.start == 1 + |EncodeBytes(K_INFO)| && e1.end == e1.start + |Encode(e1.value)|
    && e2.start == e1.end + |EncodeBytes(K_INFO)| && e2.end == e2.start + |Encode(e2.value)|
    && |data| == e2.end + 1 && data[0] == DICT_MARK && data[e2.end] == END_MARK
    && At(data, 1, EncodeBytes(K_INFO)) && At(data, e1.start, Encode(e1.value))
    && At(data, e1.end, EncodeBytes(K_INFO)) && At(data, e2.start, Encode(e2.value))
  }

  lemma {:induction false} TwoInfosStand(data: bytes, e1: RawEntry, e2: RawEntry)
    requires e1.key == K_INFO && e2.key == K_INFO && Valid(e1.value) && Valid(e2.value)
    requires var key := EncodeBytes(K_INFO);
             && e1.start == 1 + |key| && e1.end == e1.start + |Encode(e1.value)|
             && e2.start == e1.end + |key| && e2.end == e2.start + |Encode(e2.value)|
             && data == [DICT_MARK] + (key + (Encode(e1.value) + (key + (Encode(e2.value) + [END_MARK]))))
    ensures TwoInfos(data, e1, e2)
  {
    hide Encode, EncodeBytes, Valid, At;
    var key, v, w := EncodeBytes(K_INFO), Encode(e1.value), Encode(e2.value);
    AtSelf(data);
    AtConcat(data, 0, [DICT_MARK], key + (v + (key + (w + [END_MARK]))));
    AtConcat(data, 1, key, v + (key + (w + [END_MARK])));
    AtConcat(data, e1.start, v, key + (w + [END_MARK]));
    AtConcat(data, e1.end, key, w + [END_MARK]);
    AtConcat(data, e2.start, w, [END_MARK]);
    AtFirst(data, 0, [DICT_MARK]);
    AtFirst(data, e2.end, [END_MARK]);
  }

  lemma {:induction false} TwoInfosParse(data: bytes, e1: RawEntry, e2: RawEntry)
    requires TwoInfos(data, e1, e2) && |data| <= USIZE_MAX
    ensures ParseEntries(data, 1) == Done([e1, e2], |data|)
  {
    hide At, ParseBytes, ParseValue, Canonical, Encode, EncodeBytes;
    RoundTrip(e1.value, data, e1.start);
    RoundTrip(e2.value, data, e2.start);
    EntryStands(Pair(K_INFO, e1.value), data, 1, e1);
    EntryStands(Pair(K_INFO, e2.value), data, e1.end, e2);
    EntriesCons(data, e1.end, e2, [], |data|);
    assert [e2] + [] == [e2] && [e1] + [e2] == [e1, e2];
    EntriesCons(data, 1, e1, [e2], |data|);
  }

  lemma {:induction false} EntriesCons(data: bytes, pos: nat, entry: RawEntry, rest: seq<RawEntry>, next: nat)
    requires pos < |data| && data[pos] != END_MARK && ParseEntry(data, pos) == Done(entry, entry.end)
    requires entry.end <= |data| && ParseEntries(data, entry.end) == Done(rest, next)
    ensures ParseEntries(data, pos) == Done([entry] + rest, next)
  {
  }

  /** Two `info` keys: for every two values there is a torrent whose first is
      hashed while the tree keeps the second. */
  lemma {:induction false} RepeatedInfoDisagrees(v: Value, w: Value) returns (data: bytes)
    requires Valid(v) && Valid(w) && |Encode(v)| + |Encode(w)| + 2 * |EncodeBytes(K_INFO)| + 2 <= USIZE_MAX
    ensures Decode(data).Ok? && Decode(data).value.Get(K_INFO) == Some(w)
    ensures InfoSlice(data).Ok?
    ensures SliceHolds(data, InfoSlice(data).value.0, InfoSlice(data).value.1, v)
  {
    hide ParseBytes, Canonical, Encode, EncodeBytes, ParseValue, ParseEntry, SliceHolds;
    var key := EncodeBytes(K_INFO);
    data := [DICT_MARK] + (key + (Encode(v) + (key + (Encode(w) + [END_MARK]))));
    var e1 := RawEntry(K_INFO, v, 1 + |key|, 1 + |key| + |Encode(v)|);
    var e2 := RawEntry(K_INFO, w, e1.end + |key|, e1.end + |key| + |Encode(w)|);
    TwoInfosStand(data, e1, e2);
    hide TwoInfos, At, ParseEntries;
    TwoInfosParse(data, e1, e2);
    DictDecodes(data);
    WalkAgainstTree(data);
  }

  lemma {:induction false} DictDecodes(data: bytes)
    requires data != [] && data[0] == DICT_MARK && ParseEntries(data, 1).Done?
    ensures Decode(data) == Result.Ok(Dict(Build(Pairs(TopEntries(data)))))
    ensures TopEntries(data) == ParseEntries(data, 1).value
  {
  }

  // ---------- Where the walk fails ----------

  lemma {:induction false} WithinCut(data: bytes, last: byte, pos: nat, s: bytes)
    requires At(data + [last], pos, s) && pos + |s| <= |data|
    ensures At(data, pos, s)
  {
    forall i | 0 <= i < |s| ensures data[pos + i] == s[i] { assert (data + [last])[pos + i] == s[i]; }
  }

  /** Entries that are none of them `info`, and then no `e`. */
  lemma {:induction false} CutEntries(entries: seq<Pair<Value>>, data: bytes, pos: nat)
    requires forall p | p in entries :: |p.key| <= USIZE_MAX && Valid(p.value) && p.key != K_INFO
    requires |data| <= USIZE_MAX && |data| + 1 == pos + |EncodeEntries(entries)|
    requires At(data + [END_MARK], pos, EncodeEntries(entries))
    ensures pos <= |data| && FindInfo(data, pos) == Result.Err(UnterminatedTorrent)
    decreases |entries|
  {
    hide ParseEntry, ParseValue, Encode, EncodeBytes, Canonical, CanonicalLength, Valid, At;
    if entries != [] {
      var first, rest := entries[0], entries[1..];
      assert first in entries;
      SomeBytes(rest);
      var start := pos + |EncodeBytes(first.key)|;
      var end := start + |Encode(first.value)|;
      EntryParts(first, EncodeEntries(rest), data + [END_MARK], pos);
      WithinCut(data, END_MARK, pos, EncodeBytes(first.key));
      WithinCut(data, END_MARK, start, Encode(first.value));
      RoundTrip(first.value, data, start);
      EntryStands(first, data, pos, RawEntry(first.key, first.value, start, end));
      CutEntries(rest, data, end);
    }
  }

  lemma {:induction false} SomeBytes(entries: seq<Pair<Value>>)
    ensures |EncodeEntries(entries)| > 0
  {
    hide Encode, EncodeBytes;
    if entries != [] { SomeBytes(entries[1..]); }
  }

  /** The walk wants a dict; a dict without `info` has nothing to hash, and the same
      file short of its last byte is unterminated instead. */
  lemma {:induction false} WalkFailures(data: bytes, entries: seq<Pair<Value>>)
    requires Valid(Dict(entries)) && (forall p | p in entries :: p.key != K_INFO) && |Encode(Dict(entries))| <= USIZE_MAX
    ensures InfoSlice(data) == Result.Err(NotADict) <==> data == [] || data[0] != 'd' as int
    ensures var whole := Encode(Dict(entries));
            && InfoSlice(whole) == Result.Err(NoInfo)
            && |whole| > 1 && InfoSlice(whole[..|whole| - 1]) == Result.Err(UnterminatedTorrent)
  {
    hide InfoSlice, Encode, Valid;
    NeverNotADict(data);
    NothingToHash(entries);
    CutShort(entries);
  }

  lemma {:induction false} NothingToHash(entries: seq<Pair<Value>>)
    requires Valid(Dict(entries)) && (forall p | p in entries :: p.key != K_INFO) && |Encode(Dict(entries))| <= USIZE_MAX
    ensures InfoSlice(Encode(Dict(entries))) == Result.Err(NoInfo)
  {
    hide InfoSlice, Encode, Valid, Decode, SliceHolds, TopEntries, First, Last, Ascii;
    DecodeEncode(Dict(entries));
    NoInfoThere(entries);
    WalkAgainstTree(Encode(Dict(entries)));
  }

  lemma {:induction false} CutShort(entries: seq<Pair<Value>>)
    requires Valid(Dict(entries)) && (forall p | p in entries :: p.key != K_INFO) && |Encode(Dict(entries))| <= USIZE_MAX
    ensures var whole := Encode(Dict(entries));
            |whole| > 1 && InfoSlice(whole[..|whole| - 1]) == Result.Err(UnterminatedTorrent)
  {
    hide FindInfo, EncodeEntries, Ascii, Valid, At;
    var whole := Encode(Dict(entries));
    LastIsEnd(entries);
    assert whole == [DICT_MARK] + EncodeEntries(entries);
    var cut := whole[..|whole| - 1];
    assert whole == cut + [END_MARK];
    SomeBytes(entries);
    AtSelf(whole);
    AtConcat(whole, 0, [DICT_MARK], EncodeEntries(entries));
    EntriesFit(entries);
    CutEntries(entries, cut, 1);
  }

  lemma {:induction false} EntriesFit(entries: seq<Pair<Value>>)
    requires Valid(Dict(entries))
    ensures forall p | p in entries :: |p.key| <= USIZE_MAX && Valid(p.value)
  {
  }

  lemma {:induction false} NoInfoThere(entries: seq<Pair<Value>>)
    requires Valid(Dict(entries)) && forall p | p in entries :: p.key != K_INFO
    ensures Dict(entries).Get(K_INFO) == None
  {
    var found := Dict(entries).Get(K_INFO);
    if found.Some? { LookupIff(entries, K_INFO, found.value); }
  }

  lemma {:induction false} LastIsEnd(entries: seq<Pair<Value>>)
    ensures var s := EncodeEntries(entries); |s| > 0 && s[|s| - 1] == END_MARK
  {
    hide Encode, EncodeBytes;
    if entries != [] { LastIsEnd(entries[1..]); }
  }

  lemma {:induction false} NeverNotADict(data: bytes)
    ensures InfoSlice(data) == Result.Err(NotADict) <==> data == [] || data[0] != DICT_MARK
  {
    hide ParseEntry;
    if data != [] { WalkNotThat(data, 1); }
  }

  lemma {:induction false} WalkNotThat(data: bytes, pos: nat)
    requires pos <= |data|
    ensures FindInfo(data, pos) != Result.Err(NotADict)
    decreases |data| - pos
  {
    hide ParseEntry;
    if pos < |data| && data[pos] != END_MARK {
      match ParseEntry(data, pos)
      case Fail(_) =>
      case Done(entry, next) => if entry.key != K_INFO { WalkNotThat(data, next); }
    }
  }
}
