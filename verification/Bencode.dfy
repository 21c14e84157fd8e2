/**
 BEP 3, "bencoding": what the decoder computes at each position and what the
 encoder writes, and how the two relate.

 The decoder is more liberal than the encoder (signs, leading zeros, unsorted
 and repeated keys, trailing bytes), so three theorems are separate: the round
 trip, the exact set of inputs on which encoding undoes decoding, and the fact
 that what a decoded region means does not depend on its surroundings.
 */
module Bencode {
  import opened Wrappers
  import opened Bytes
  import opened Decimal
  import opened SortedMap

  datatype Value =
    | Int(n: i64)
    | Bytes(b: bytes)
    | List(items: seq<Value>)
    | Dict(entries: seq<Pair<Value>>)
  {
    /** `Value::get`: `None` unless this is a dict holding `key`. */
    function Get(key: bytes): Option<Value> {
      if Dict? then Lookup(entries, key) else None
    }

    function AsInt(): Option<i64> {
      if Int? then Some(n) else None
    }

    function AsBytes(): Option<bytes> {
      if Bytes? then Some(b) else None
    }

    function AsStr(): Option<bytes> {
      if Bytes? && ValidUtf8(b) then Some(b) else None
    }
  }

  /** The text under `key`, if there is one. */
  function GetStr(v: Value, key: bytes): Option<bytes> {
    match v.Get(key) case Some(x) => x.AsStr() case None => None
  }

  /** The integer under `key`, if there is one. */
  function GetInt(v: Value, key: bytes): Option<i64> {
    match v.Get(key) case Some(x) => x.AsInt() case None => None
  }

  /** The entry is there. */
  predicate Has(entries: seq<Pair<Value>>, name: string, v: Value) {
    Pair(Ascii(name), v) in entries
  }

  /** What Rust's types guarantee of a `Value`: vectors have a possible length
      and a dict's keys ascend. */
  ghost predicate Valid(v: Value) {
    match v
    case Int(_) => true
    case Bytes(b) => |b| <= USIZE_MAX
    case List(items) => forall x | x in items :: Valid(x)
    case Dict(entries) => Sorted(entries) && forall p | p in entries :: |p.key| <= USIZE_MAX && Valid(p.value)
  }

  const INT_MARK: byte := 'i' as int
  const LIST_MARK: byte := 'l' as int
  const DICT_MARK: byte := 'd' as int
  const END_MARK: byte := 'e' as int
  const COLON: byte := ':' as int

  // ---------- Encoding ----------

  function EncodeInt(n: i64): bytes {
    [INT_MARK] + (IntText(n) + [END_MARK])
  }

  function EncodeBytes(b: bytes): bytes {
    NatText(|b|) + ([COLON] + b)
  }

  function Encode(v: Value): bytes
    decreases v
  {
    match v
    case Int(n) => EncodeInt(n)
    case Bytes(b) => EncodeBytes(b)
    case List(items) => [LIST_MARK] + EncodeItems(items)
    case Dict(entries) => [DICT_MARK] + EncodeEntries(entries)
  }

  /** The elements of a list and its closing `e`. */
  function EncodeItems(items: seq<Value>): bytes
    decreases items
  {
    if items == [] then [END_MARK] else Encode(items[0]) + EncodeItems(items[1..])
  }

  /** The entries of a dict and its closing `e`. */
  function EncodeEntries(entries: seq<Pair<Value>>): bytes
    decreases entries
  {
    if entries == [] then [END_MARK]
    else
      assert entries[0].value < entries[0];
      EncodeBytes(entries[0].key) + (Encode(entries[0].value) + EncodeEntries(entries[1..]))
  }

  // ---------- Decoding ----------

  datatype Error =
    | UnexpectedEnd
    | InvalidTypeByte
    | UnterminatedInt
    | InvalidInt
    | UnterminatedLength
    | InvalidLength
    | LengthOverflow
    | PastEnd
    | UnterminatedList
    | UnterminatedDict

  /** A value and the position just after it. */
  datatype Parsed<+T> = Done(value: T, next: nat) | Fail(error: Error)

  /** A dict entry as read: the value stands at `start..end`. */
  datatype RawEntry = RawEntry(key: bytes, value: Value, start: nat, end: nat)

  /** The first `c` at or after `pos`, or the end of the data. */
  function Scan(data: bytes, pos: nat, c: byte): (p: nat)
    requires pos <= |data|
    ensures pos <= p <= |data|
    ensures p < |data| ==> data[p] == c
    ensures forall i | pos <= i < p :: data[i] != c
    decreases |data| - pos
  {
    if pos == |data| || data[pos] == c then pos else Scan(data, pos + 1, c)
  }

  function ParseInt(data: bytes, pos: nat): (r: Parsed<i64>)
    requires pos < |data|
    ensures r.Done? ==> pos < r.next <= |data|
  {
    var p := Scan(data, pos + 1, END_MARK);
    if p == |data| then Fail(UnterminatedInt)
    else
      match ParseI64(data[pos + 1..p])
      case None => Fail(InvalidInt)
      case Some(n) => Done(n, p + 1)
  }

  function ParseBytes(data: bytes, pos: nat): (r: Parsed<bytes>)
    requires pos <= |data|
    ensures r.Done? ==> pos < r.next <= |data|
  {
    var p := Scan(data, pos, COLON);
    if p == |data| then Fail(UnterminatedLength)
    else
      match ParseUsize(data[pos..p])
      case None => Fail(InvalidLength)
      case Some(len) =>
        if p + 1 + len > USIZE_MAX then Fail(LengthOverflow)
        else if p + 1 + len > |data| then Fail(PastEnd)
        else Done(data[p + 1..p + 1 + len], p + 1 + len)
  }

  function ParseValue(data: bytes, pos: nat): (r: Parsed<Value>)
    requires pos <= |data|
    ensures r.Done? ==> pos < r.next <= |data|
    decreases |data| - pos, 0
  {
    if pos == |data| then Fail(UnexpectedEnd)
    else if data[pos] == DICT_MARK then
      match ParseEntries(data, pos + 1)
      case Fail(e) => Fail(e)
      case Done(raw, next) => Done(Dict(Build(Pairs(raw))), next)
    else if data[pos] == LIST_MARK then
      match ParseItems(data, pos + 1)
      case Fail(e) => Fail(e)
      case Done(items, next) => Done(List(items), next)
    else if data[pos] == INT_MARK then
      match ParseInt(data, pos)
      case Fail(e) => Fail(e)
      case Done(n, next) => Done(Int(n), next)
    else if IsDigit(data[pos]) then
      match ParseBytes(data, pos)
      case Fail(e) => Fail(e)
      case Done(b, next) => Done(Bytes(b), next)
    else Fail(InvalidTypeByte)
  }

  /** The rest of a list from `pos` on, through its closing `e`. */
  function ParseItems(data: bytes, pos: nat): (r: Parsed<seq<Value>>)
    requires pos <= |data|
    ensures r.Done? ==> pos < r.next <= |data|
    decreases |data| - pos, 1
  {
    if pos == |data| then Fail(UnterminatedList)
    else if data[pos] == END_MARK then Done([], pos + 1)
    else
      match ParseValue(data, pos)
      case Fail(e) => Fail(e)
      case Done(v, next) =>
        match ParseItems(data, next)
        case Fail(e) => Fail(e)
        case Done(rest, end) => Done([v] + rest, end)
  }

  /** One key and one value. */
  function ParseEntry(data: bytes, pos: nat): (r: Parsed<RawEntry>)
    requires pos <= |data|
    ensures r.Done? ==> pos < r.value.start < r.value.end == r.next <= |data|
    decreases |data| - pos, 1
  {
    match ParseBytes(data, pos)
    case Fail(e) => Fail(e)
    case Done(key, start) =>
      match ParseValue(data, start)
      case Fail(e) => Fail(e)
      case Done(v, end) => Done(RawEntry(key, v, start, end), end)
  }

  /** The rest of a dict from `pos` on, through its closing `e`, in the order read. */
  function ParseEntries(data: bytes, pos: nat): (r: Parsed<seq<RawEntry>>)
    requires pos <= |data|
    ensures r.Done? ==> pos < r.next <= |data|
    decreases |data| - pos, 2
  {
    if pos == |data| then Fail(UnterminatedDict)
    else if data[pos] == END_MARK then Done([], pos + 1)
    else
      match ParseEntry(data, pos)
      case Fail(e) => Fail(e)
      case Done(entry, next) =>
        match ParseEntries(data, next)
        case Fail(e) => Fail(e)
        case Done(rest, end) => Done([entry] + rest, end)
  }

  /** The entries as a map is built from them. */
  function Pairs(raw: seq<RawEntry>): (r: seq<Pair<Value>>)
    ensures |r| == |raw|
    ensures forall i | 0 <= i < |raw| :: r[i] == Pair(raw[i].key, raw[i].value)
  {
    seq(|raw|, i requires 0 <= i < |raw| => Pair(raw[i].key, raw[i].value))
  }

  /** `decode`: the value at the start; bytes after it are not looked at. */
  function Decode(data: bytes): Result<Value, Error> {
    match ParseValue(data, 0)
    case Fail(e) => Result.Err(e)
    case Done(v, _) => Result.Ok(v)
  }

  // ---------- Canonical form ----------

  /** The region a successful decode consumed is canonical by BEP 3: minimal
      integers and lengths, and strictly ascending keys, at every depth. */
  ghost predicate Canonical(data: bytes, pos: nat)
    requires pos <= |data| && ParseValue(data, pos).Done?
    decreases |data| - pos, 0
  {
    if data[pos] == DICT_MARK then
      CanonicalEntries(data, pos + 1) && Sorted(Pairs(ParseEntries(data, pos + 1).value))
    else if data[pos] == LIST_MARK then CanonicalItems(data, pos + 1)
    else if data[pos] == INT_MARK then MinimalInt(data[pos + 1..Scan(data, pos + 1, END_MARK)])
    else CanonicalLength(data, pos)
  }

  ghost predicate CanonicalLength(data: bytes, pos: nat)
    requires pos <= |data|
  {
    MinimalNat(data[pos..Scan(data, pos, COLON)])
  }

  ghost predicate CanonicalItems(data: bytes, pos: nat)
    requires pos <= |data| && ParseItems(data, pos).Done?
    decreases |data| - pos, 1
  {
    data[pos] == END_MARK || (Canonical(data, pos) && CanonicalItems(data, ParseValue(data, pos).next))
  }

  ghost predicate CanonicalEntries(data: bytes, pos: nat)
    requires pos <= |data| && ParseEntries(data, pos).Done?
    decreases |data| - pos, 1
  {
    data[pos] == END_MARK
    || (var entry := ParseEntry(data, pos);
        CanonicalLength(data, pos) && Canonical(data, entry.value.start) && CanonicalEntries(data, entry.next))
  }

  // ---------- Round trip ----------

  lemma {:induction false} ScanStops(data: bytes, pos: nat, text: bytes, c: byte)
    requires At(data, pos, text) && At(data, pos + |text|, [c]) && c !in text
    ensures Scan(data, pos, c) == pos + |text|
  {
    AtFirst(data, pos + |text|, [c]);
    forall i | pos <= i < pos + |text| ensures data[i] != c {
      assert data[pos + (i - pos)] == text[i - pos];
    }
  }

  lemma {:induction false} DigitsOnly(text: bytes)
    requires MinimalInt(text)
    ensures END_MARK !in text && COLON !in text
  {
    forall b | b in text ensures b == MINUS || IsDigit(b) {
      var i :| 0 <= i < |text| && text[i] == b;
      if text[0] == MINUS && i > 0 { assert text[1..][i - 1] == b; }
    }
  }

  lemma {:induction false} IntTextStands(text: bytes, data: bytes, pos: nat)
    requires At(data, pos, [INT_MARK] + (text + [END_MARK])) && END_MARK !in text
    ensures pos < |data| && data[pos] == INT_MARK
    ensures Scan(data, pos + 1, END_MARK) == pos + 1 + |text| < |data|
    ensures data[pos + 1..pos + 1 + |text|] == text
  {
    AtConcat(data, pos, [INT_MARK], text + [END_MARK]);
    AtConcat(data, pos + 1, text, [END_MARK]);
    AtFirst(data, pos, [INT_MARK]);
    ScanStops(data, pos + 1, text, END_MARK);
    AtIsSlice(data, pos + 1, text);
  }

  lemma {:induction false} IntStands(n: i64, data: bytes, pos: nat)
    requires At(data, pos, EncodeInt(n))
    ensures ParseInt(data, pos) == Done(n, pos + |EncodeInt(n)|)
    ensures data[pos] == INT_MARK
    ensures MinimalInt(data[pos + 1..Scan(data, pos + 1, END_MARK)])
  {
    hide ParseI64, IntText, MinimalInt;
    IntRoundTrip(n);
    DigitsOnly(IntText(n));
    IntTextStands(IntText(n), data, pos);
  }

  lemma {:induction false} BytesRead(data: bytes, pos: nat, p: nat, len: nat)
    requires pos <= |data| <= USIZE_MAX && p == Scan(data, pos, COLON)
    requires p + 1 + len <= |data| && ParseUsize(data[pos..p]) == Some(len)
    ensures ParseBytes(data, pos) == Done(data[p + 1..p + 1 + len], p + 1 + len)
  {
  }

  lemma {:induction false} BytesTextStands(text: bytes, b: bytes, data: bytes, pos: nat)
    requires At(data, pos, text + ([COLON] + b)) && COLON !in text
    requires |data| <= USIZE_MAX && ParseUsize(text) == Some(|b|)
    ensures At(data, pos, text)
    ensures Scan(data, pos, COLON) == pos + |text| && data[pos..pos + |text|] == text
    ensures ParseBytes(data, pos) == Done(b, pos + |text| + 1 + |b|)
  {
    hide ParseUsize;
    AtConcat(data, pos, text, [COLON] + b);
    AtConcat(data, pos + |text|, [COLON], b);
    ScanStops(data, pos, text, COLON);
    AtIsSlice(data, pos, text);
    AtIsSlice(data, pos + |text| + 1, b);
  }

  lemma {:induction false} BytesStand(b: bytes, data: bytes, pos: nat)
    requires |data| <= USIZE_MAX && At(data, pos, EncodeBytes(b))
    ensures ParseBytes(data, pos) == Done(b, pos + |EncodeBytes(b)|)
    ensures pos < |data| && IsDigit(data[pos]) && CanonicalLength(data, pos)
  {
    var text := NatText(|b|);
    UsizeRoundTrip(|b|);
    DigitsOnly(text);
    BytesTextStands(text, b, data, pos);
    AtFirst(data, pos, text);
  }

  lemma {:induction false} EncodeStart(v: Value)
    ensures |Encode(v)| > 0 && Encode(v)[0] != END_MARK
  {
    if v.Bytes? { NatTextMinimal(|v.b|); }
  }

  /** Decoding where an encoding stands, whatever surrounds it, gives exactly
      the value, stops exactly at the end, and finds canonical bytes. */
  lemma {:induction false} RoundTrip(v: Value, data: bytes, pos: nat)
    requires Valid(v) && |data| <= USIZE_MAX && At(data, pos, Encode(v))
    ensures ParseValue(data, pos) == Done(v, pos + |Encode(v)|)
    ensures Canonical(data, pos)
    decreases v
  {
    match v
    case Int(n) => IntStands(n, data, pos);
    case Bytes(b) => BytesStand(b, data, pos);
    case List(items) =>
      AtConcat(data, pos, [LIST_MARK], EncodeItems(items));
      AtFirst(data, pos, [LIST_MARK]);
      ItemsRoundTrip(items, data, pos + 1);
    case Dict(entries) =>
      AtConcat(data, pos, [DICT_MARK], EncodeEntries(entries));
      AtFirst(data, pos, [DICT_MARK]);
      EntriesRoundTrip(entries, data, pos + 1);
      BuildOfSorted(entries);
  }

  lemma {:induction false} ItemsRoundTrip(items: seq<Value>, data: bytes, pos: nat)
    requires (forall x | x in items :: Valid(x)) && |data| <= USIZE_MAX && At(data, pos, EncodeItems(items))
    ensures ParseItems(data, pos) == Done(items, pos + |EncodeItems(items)|)
    ensures CanonicalItems(data, pos)
    decreases items
  {
    hide At, ParseValue, Canonical, Encode;
    if items == [] {
      AtFirst(data, pos, [END_MARK]);
    } else {
      AtConcat(data, pos, Encode(items[0]), EncodeItems(items[1..]));
      EncodeStart(items[0]);
      AtFirst(data, pos, Encode(items[0]));
      RoundTrip(items[0], data, pos);
      var next := pos + |Encode(items[0])|;
      ItemsRoundTrip(items[1..], data, next);
      ItemsCons(data, pos, items[0], next, items[1..], next + |EncodeItems(items[1..])|);
      assert items == [items[0]] + items[1..];
    }
  }

  lemma {:induction false} PairsCons(entry: RawEntry, tail: seq<RawEntry>)
    ensures Pairs([entry] + tail) == [Pair(entry.key, entry.value)] + Pairs(tail)
  {
  }

  /** One turn of the list loop. */
  lemma {:induction false} ItemsCons(data: bytes, pos: nat, v: Value, next: nat, rest: seq<Value>, end: nat)
    requires pos < |data| && data[pos] != END_MARK && next <= |data|
    requires ParseValue(data, pos) == Done(v, next) && ParseItems(data, next) == Done(rest, end)
    ensures ParseItems(data, pos) == Done([v] + rest, end)
  {
  }

  /** An entry is read exactly when its key and then its value are. */
  lemma {:induction false} EntryReads(data: bytes, pos: nat, entry: RawEntry)
    requires pos <= |data|
    ensures ParseEntry(data, pos) == Done(entry, entry.end) <==>
            && ParseBytes(data, pos) == Done(entry.key, entry.start)
            && entry.start <= |data|
            && ParseValue(data, entry.start) == Done(entry.value, entry.end)
  {
  }

  /** The entries from `pos` on are `entries`, through `next`. */
  ghost predicate Reads(entries: seq<Pair<Value>>, data: bytes, pos: nat, next: nat) {
    && pos <= |data|
    && ParseEntries(data, pos).Done?
    && Pairs(ParseEntries(data, pos).value) == entries
    && ParseEntries(data, pos).next == next
  }

  /** One turn of the dict loop. */
  lemma {:induction false} ReadsCons(entry: RawEntry, rest: seq<Pair<Value>>, data: bytes, pos: nat, next: nat)
    requires pos < |data| && data[pos] != END_MARK && ParseEntry(data, pos) == Done(entry, entry.end)
    requires Reads(rest, data, entry.end, next)
    ensures Reads([Pair(entry.key, entry.value)] + rest, data, pos, next)
  {
    PairsCons(entry, ParseEntries(data, entry.end).value);
  }

  lemma {:induction false} EntryParts(first: Pair<Value>, rest: bytes, data: bytes, pos: nat)
    requires At(data, pos, EncodeBytes(first.key) + (Encode(first.value) + rest))
    ensures At(data, pos, EncodeBytes(first.key))
    ensures At(data, pos + |EncodeBytes(first.key)|, Encode(first.value))
    ensures At(data, pos + |EncodeBytes(first.key)| + |Encode(first.value)|, rest)
  {
    AtConcat(data, pos, EncodeBytes(first.key), Encode(first.value) + rest);
    AtConcat(data, pos + |EncodeBytes(first.key)|, Encode(first.value), rest);
  }

  lemma {:induction false} EntryStands(first: Pair<Value>, data: bytes, pos: nat, entry: RawEntry)
    requires |data| <= USIZE_MAX && At(data, pos, EncodeBytes(first.key))
    requires entry.key == first.key && entry.value == first.value
    requires entry.start == pos + |EncodeBytes(first.key)| <= |data|
    requires ParseValue(data, entry.start) == Done(first.value, entry.end) && Canonical(data, entry.start)
    ensures pos < |data| && data[pos] != END_MARK && CanonicalLength(data, pos)
    ensures ParseEntry(data, pos) == Done(entry, entry.end)
  {
    hide At, ParseBytes, ParseValue, Canonical, CanonicalLength, EncodeBytes;
    BytesStand(first.key, data, pos);
    EntryReads(data, pos, entry);
  }

  lemma {:induction false} EntriesRoundTrip(entries: seq<Pair<Value>>, data: bytes, pos: nat)
    requires forall p | p in entries :: |p.key| <= USIZE_MAX && Valid(p.value)
    requires |data| <= USIZE_MAX && At(data, pos, EncodeEntries(entries))
    ensures Reads(entries, data, pos, pos + |EncodeEntries(entries)|)
    ensures CanonicalEntries(data, pos)
    decreases entries
  {
    if entries == [] {
      AtFirst(data, pos, [END_MARK]);
    } else {
      var first, rest := entries[0], entries[1..];
      var start := pos + |EncodeBytes(first.key)|;
      var end := start + |Encode(first.value)|;
      EntryParts(first, EncodeEntries(rest), data, pos);
      assert first in entries && first.value < first;
      RoundTrip(first.value, data, start);
      EntriesRoundTrip(rest, data, end);
      var entry := RawEntry(first.key, first.value, start, end);
      EntryStands(first, data, pos, entry);
      ReadsCons(entry, rest, data, pos, end + |EncodeEntries(rest)|);
      assert entries == [first] + rest;
    }
  }
}
