/** How decoding and encoding undo each other, for every input. */
module BencodeLaws {
  import opened Wrappers
  import opened Bytes
  import opened Decimal
  import opened SortedMap
  import opened Bencode

  // ---------- What the decoder returns is a possible value ----------

  lemma {:induction false} ParseValid(data: bytes, pos: nat)
    requires pos <= |data| <= USIZE_MAX && ParseValue(data, pos).Done?
    ensures Valid(ParseValue(data, pos).value)
    decreases |data| - pos, 0
  {
    if data[pos] == DICT_MARK {
      EntriesValid(data, pos + 1);
      BuildSorted(Pairs(ParseEntries(data, pos + 1).value));
    } else if data[pos] == LIST_MARK {
      ItemsValid(data, pos + 1);
    }
  }

  lemma {:induction false} ItemsValid(data: bytes, pos: nat)
    requires pos <= |data| <= USIZE_MAX && ParseItems(data, pos).Done?
    ensures forall x | x in ParseItems(data, pos).value :: Valid(x)
    decreases |data| - pos, 1
  {
    if data[pos] != END_MARK {
      ParseValid(data, pos);
      ItemsValid(data, ParseValue(data, pos).next);
    }
  }

  lemma {:induction false} EntriesValid(data: bytes, pos: nat)
    requires pos <= |data| <= USIZE_MAX && ParseEntries(data, pos).Done?
    ensures forall p | p in Pairs(ParseEntries(data, pos).value) :: |p.key| <= USIZE_MAX && Valid(p.value)
    decreases |data| - pos, 1
  {
    if data[pos] != END_MARK {
      var entry := ParseEntry(data, pos);
      ParseValid(data, entry.value.start);
      EntriesValid(data, entry.next);
      PairsCons(entry.value, ParseEntries(data, entry.next).value);
    }
  }

  // ---------- Canonical bytes are what the encoder writes ----------

  lemma {:induction false} IntTextAt(data: bytes, pos: nat, p: nat, text: bytes)
    requires pos < p < |data| && data[pos] == INT_MARK && data[p] == END_MARK && data[pos + 1..p] == text
    ensures At(data, pos, [INT_MARK] + (text + [END_MARK]))
  {
    AtIsSlice(data, pos + 1, text);
    AtConcat(data, pos + 1, text, [END_MARK]);
    AtConcat(data, pos, [INT_MARK], text + [END_MARK]);
  }

  lemma {:induction false} CanonicalInt(data: bytes, pos: nat)
    requires pos < |data| && data[pos] == INT_MARK && ParseInt(data, pos).Done?
    requires MinimalInt(data[pos + 1..Scan(data, pos + 1, END_MARK)])
    ensures var r := ParseInt(data, pos);
            At(data, pos, EncodeInt(r.value)) && r.next == pos + |EncodeInt(r.value)|
  {
    var p := Scan(data, pos + 1, END_MARK);
    IntTextAt(data, pos, p, data[pos + 1..p]);
    MinimalIntUnique(data[pos + 1..p]);
  }

  lemma {:induction false} BytesTextAt(data: bytes, pos: nat, p: nat, text: bytes, b: bytes)
    requires pos <= p && p + 1 + |b| <= |data|
    requires data[pos..p] == text && data[p] == COLON && data[p + 1..p + 1 + |b|] == b
    ensures At(data, pos, text + ([COLON] + b))
  {
    AtIsSlice(data, pos, text);
    AtIsSlice(data, p + 1, b);
    AtConcat(data, p, [COLON], b);
    AtConcat(data, pos, text, [COLON] + b);
  }

  lemma {:induction false} CanonicalBytes(data: bytes, pos: nat)
    requires pos <= |data| && ParseBytes(data, pos).Done? && CanonicalLength(data, pos)
    ensures var r := ParseBytes(data, pos);
            At(data, pos, EncodeBytes(r.value)) && r.next == pos + |EncodeBytes(r.value)|
  {
    var p := Scan(data, pos, COLON);
    BytesTextAt(data, pos, p, data[pos..p], ParseBytes(data, pos).value);
    MinimalUsizeUnique(data[pos..p]);
  }

  lemma {:induction false} CanonicalEncodes(data: bytes, pos: nat)
    requires pos <= |data| && ParseValue(data, pos).Done? && Canonical(data, pos)
    ensures var r := ParseValue(data, pos);
            At(data, pos, Encode(r.value)) && r.next == pos + |Encode(r.value)|
    decreases |data| - pos, 0
  {
    hide ParseInt, ParseBytes, EncodeInt, EncodeBytes, Scan;
    if data[pos] == DICT_MARK {
      var pairs := Pairs(ParseEntries(data, pos + 1).value);
      CanonicalEntriesEncode(data, pos + 1);
      BuildOfSorted(pairs);
      AtConcat(data, pos, [DICT_MARK], EncodeEntries(pairs));
    } else if data[pos] == LIST_MARK {
      CanonicalItemsEncode(data, pos + 1);
      AtConcat(data, pos, [LIST_MARK], EncodeItems(ParseItems(data, pos + 1).value));
    } else if data[pos] == INT_MARK {
      CanonicalInt(data, pos);
    } else {
      CanonicalBytes(data, pos);
    }
  }

  lemma {:induction false} CanonicalItemsEncode(data: bytes, pos: nat)
    requires pos <= |data| && ParseItems(data, pos).Done? && CanonicalItems(data, pos)
    ensures var r := ParseItems(data, pos);
            At(data, pos, EncodeItems(r.value)) && r.next == pos + |EncodeItems(r.value)|
    decreases |data| - pos, 1
  {
    if data[pos] != END_MARK {
      var head := ParseValue(data, pos);
      var tail := ParseItems(data, head.next);
      CanonicalEncodes(data, pos);
      CanonicalItemsEncode(data, head.next);
      AtConcat(data, pos, Encode(head.value), EncodeItems(tail.value));
      assert ([head.value] + tail.value)[1..] == tail.value;
    }
  }

  lemma {:induction false} CanonicalEntriesEncode(data: bytes, pos: nat)
    requires pos <= |data| && ParseEntries(data, pos).Done? && CanonicalEntries(data, pos)
    ensures var r := ParseEntries(data, pos);
            At(data, pos, EncodeEntries(Pairs(r.value))) && r.next == pos + |EncodeEntries(Pairs(r.value))|
    decreases |data| - pos, 1
  {
    hide ParseBytes, Scan, EncodeBytes, ParseValue, Encode, Canonical, CanonicalLength;
    if data[pos] != END_MARK {
      var entry := ParseEntry(data, pos).value;
      var rest := Pairs(ParseEntries(data, entry.end).value);
      CanonicalBytes(data, pos);
      CanonicalEncodes(data, entry.start);
      CanonicalEntriesEncode(data, entry.end);
      AtConcat(data, entry.start, Encode(entry.value), EncodeEntries(rest));
      AtConcat(data, pos, EncodeBytes(entry.key), Encode(entry.value) + EncodeEntries(rest));
      PairsCons(entry, ParseEntries(data, entry.end).value);
      assert ([Pair(entry.key, entry.value)] + rest)[1..] == rest;
    }
  }

  // ---------- The laws ----------

  /** Encoding a decoded value gives back the very bytes it was read from
      exactly when those bytes are canonical. */
  lemma {:induction false} ReencodesIffCanonical(data: bytes, pos: nat)
    requires pos <= |data| <= USIZE_MAX && ParseValue(data, pos).Done?
    ensures var r := ParseValue(data, pos);
            Encode(r.value) == data[pos..r.next] <==> Canonical(data, pos)
  {
    var r := ParseValue(data, pos);
    AtIsSlice(data, pos, Encode(r.value));
    if Canonical(data, pos) {
      CanonicalEncodes(data, pos);
    }
    if Encode(r.value) == data[pos..r.next] {
      ParseValid(data, pos);
      RoundTrip(r.value, data, pos);
    }
  }

  /** `decode(encode(v)) == v`. */
  lemma {:induction false} DecodeEncode(v: Value)
    requires Valid(v) && |Encode(v)| <= USIZE_MAX
    ensures Decode(Encode(v)) == Result.Ok(v)
  {
    RoundTrip(v, Encode(v), 0);
  }

  // ---------- Encoding again is never longer ----------

  function EntrySize(p: Pair<Value>): nat {
    |EncodeBytes(p.key)| + |Encode(p.value)|
  }

  lemma {:induction false} EntriesSize(p: Pair<Value>, rest: seq<Pair<Value>>)
    ensures |EncodeEntries([p] + rest)| == EntrySize(p) + |EncodeEntries(rest)|
  {
    hide EncodeBytes, Encode;
    assert ([p] + rest)[1..] == rest;
  }

  lemma {:induction false} EntriesSizeSnoc(init: seq<Pair<Value>>, p: Pair<Value>)
    ensures |EncodeEntries(init + [p])| == |EncodeEntries(init)| + EntrySize(p)
  {
    hide EncodeEntries, EntrySize;
    if init == [] {
      assert [] + [p] == [p] + [];
      EntriesSize(p, []);
    } else {
      assert init == [init[0]] + init[1..] && init + [p] == [init[0]] + (init[1..] + [p]);
      EntriesSizeSnoc(init[1..], p);
      EntriesSize(init[0], init[1..]);
      EntriesSize(init[0], init[1..] + [p]);
    }
  }

  lemma {:induction false} InsertSize(m: seq<Pair<Value>>, key: bytes, value: Value)
    ensures |EncodeEntries(Insert(m, key, value))| <= |EncodeEntries(m)| + EntrySize(Pair(key, value))
  {
    hide EncodeEntries, EntrySize, Less;
    var p := Pair(key, value);
    EntriesSize(p, m);
    if m == [] {
      assert [p] + [] == [p];
    } else {
      assert m == [m[0]] + m[1..];
      EntriesSize(m[0], m[1..]);
      EntriesSize(p, m[1..]);
      InsertSize(m[1..], key, value);
      EntriesSize(m[0], Insert(m[1..], key, value));
    }
  }

  /** A map is no larger than the list it was built from. */
  lemma {:induction false} BuildSize(list: seq<Pair<Value>>)
    ensures |EncodeEntries(Build(list))| <= |EncodeEntries(list)|
  {
    hide EncodeEntries, EntrySize, Insert;
    if list != [] {
      var init, last := list[..|list| - 1], list[|list| - 1];
      assert list == init + [last];
      BuildSize(init);
      InsertSize(Build(init), last.key, last.value);
      EntriesSizeSnoc(init, last);
    }
  }

  lemma {:induction false} BytesNotLonger(data: bytes, pos: nat)
    requires pos <= |data| && ParseBytes(data, pos).Done?
    ensures |EncodeBytes(ParseBytes(data, pos).value)| <= ParseBytes(data, pos).next - pos
  {
    hide ParseUsize, NatText;
    UsizeTextShort(data[pos..Scan(data, pos, COLON)]);
  }

  lemma {:induction false} IntNotLonger(data: bytes, pos: nat)
    requires pos < |data| && ParseInt(data, pos).Done?
    ensures |EncodeInt(ParseInt(data, pos).value)| <= ParseInt(data, pos).next - pos
  {
    hide ParseI64, IntText;
    IntTextShort(data[pos + 1..Scan(data, pos + 1, END_MARK)]);
  }

  /** Encoding a decoded value takes no more bytes than were consumed. */
  lemma {:induction false} NotLonger(data: bytes, pos: nat)
    requires pos <= |data| && ParseValue(data, pos).Done?
    ensures |Encode(ParseValue(data, pos).value)| <= ParseValue(data, pos).next - pos
    decreases |data| - pos, 0
  {
    hide ParseInt, ParseBytes, ParseItems, ParseEntries, EncodeBytes, EncodeInt, EncodeItems, EncodeEntries, Build;
    if data[pos] == DICT_MARK {
      EntriesNotLonger(data, pos + 1);
      BuildSize(Pairs(ParseEntries(data, pos + 1).value));
    } else if data[pos] == LIST_MARK {
      ItemsNotLonger(data, pos + 1);
    } else if data[pos] == INT_MARK {
      IntNotLonger(data, pos);
    } else {
      BytesNotLonger(data, pos);
    }
  }

  lemma {:induction false} ItemsNotLonger(data: bytes, pos: nat)
    requires pos <= |data| && ParseItems(data, pos).Done?
    ensures |EncodeItems(ParseItems(data, pos).value)| <= ParseItems(data, pos).next - pos
    decreases |data| - pos, 1
  {
    hide ParseValue, Encode;
    if data[pos] != END_MARK {
      var head := ParseValue(data, pos);
      var tail := ParseItems(data, head.next).value;
      NotLonger(data, pos);
      ItemsNotLonger(data, head.next);
      assert ([head.value] + tail)[1..] == tail;
    }
  }

  lemma {:induction false} EntriesNotLonger(data: bytes, pos: nat)
    requires pos <= |data| && ParseEntries(data, pos).Done?
    ensures |EncodeEntries(Pairs(ParseEntries(data, pos).value))| <= ParseEntries(data, pos).next - pos
    decreases |data| - pos, 1
  {
    hide ParseBytes, ParseValue, Encode, EncodeBytes;
    if data[pos] != END_MARK {
      var entry := ParseEntry(data, pos).value;
      var tail := ParseEntries(data, entry.end).value;
      BytesNotLonger(data, pos);
      NotLonger(data, entry.start);
      EntriesNotLonger(data, entry.end);
      PairsCons(entry, tail);
      EntriesSize(Pair(entry.key, entry.value), Pairs(tail));
    }
  }

  /** For every accepted input, canonical or not, decoding is stable under
      re-encoding, which never takes more bytes. */
  lemma {:induction false} DecodeEncodeDecode(data: bytes)
    requires |data| <= USIZE_MAX && Decode(data).Ok?
    ensures |Encode(Decode(data).value)| <= |data|
    ensures Decode(Encode(Decode(data).value)) == Decode(data)
  {
    hide ParseValue, Encode;
    ParseValid(data, 0);
    NotLonger(data, 0);
    DecodeEncode(Decode(data).value);
  }

  /** No encoding is a proper prefix of another, and encodings are unique. */
  lemma {:induction false} PrefixFree(v: Value, w: Value)
    requires Valid(v) && Valid(w) && |Encode(w)| <= USIZE_MAX
    requires Encode(v) <= Encode(w)
    ensures v == w
  {
    AtIsSlice(Encode(w), 0, Encode(v));
    RoundTrip(v, Encode(w), 0);
    RoundTrip(w, Encode(w), 0);
  }

  // ---------- Decoding does not depend on the surroundings ----------

  /** `from..to` of `a` also stands in `b`, `shift` further on. */
  ghost predicate Same(a: bytes, b: bytes, shift: int, from: nat, to: nat)
    decreases to - from
  {
    && from <= to <= |a| && 0 <= from + shift && to + shift <= |b|
    && (from < to ==> a[from] == b[from + shift] && Same(a, b, shift, from + 1, to))
  }

  lemma {:induction false} SameBounds(a: bytes, b: bytes, shift: int, from: nat, to: nat)
    requires Same(a, b, shift, from, to)
    ensures from <= to <= |a| && 0 <= from + shift && to + shift <= |b|
  {
  }

  lemma {:induction false} SameAt(a: bytes, b: bytes, shift: int, from: nat, to: nat, i: nat)
    requires Same(a, b, shift, from, to) && from <= i < to
    ensures i + shift < |b| && a[i] == b[i + shift]
    decreases i - from
  {
    if from < i { SameAt(a, b, shift, from + 1, to, i); }
  }

  lemma {:induction false} SameSlice(a: bytes, b: bytes, shift: int, from: nat, to: nat, lo: nat, hi: nat)
    requires Same(a, b, shift, from, to) && from <= lo <= hi <= to
    ensures a[lo..hi] == b[lo + shift..hi + shift]
  {
    forall i | 0 <= i < hi - lo ensures a[lo..hi][i] == b[lo + shift..hi + shift][i] {
      SameAt(a, b, shift, from, to, lo + i);
    }
  }

  lemma {:induction false} LocalScan(a: bytes, b: bytes, shift: int, from: nat, to: nat, pos: nat, c: byte)
    requires Same(a, b, shift, from, to) && from <= pos <= |a| && Scan(a, pos, c) < to
    ensures Scan(b, pos + shift, c) == Scan(a, pos, c) + shift
    decreases |a| - pos
  {
    SameAt(a, b, shift, from, to, pos);
    if a[pos] != c { LocalScan(a, b, shift, from, to, pos + 1, c); }
  }

  lemma {:induction false} LocalInt(a: bytes, b: bytes, shift: int, from: nat, to: nat, pos: nat)
    requires Same(a, b, shift, from, to) && from <= pos < |a|
    requires ParseInt(a, pos).Done? && ParseInt(a, pos).next <= to
    ensures ParseInt(b, pos + shift) == Done(ParseInt(a, pos).value, ParseInt(a, pos).next + shift)
  {
    hide ParseI64;
    LocalScan(a, b, shift, from, to, pos + 1, END_MARK);
    SameSlice(a, b, shift, from, to, pos + 1, Scan(a, pos + 1, END_MARK));
  }

  lemma {:induction false} LocalBytes(a: bytes, b: bytes, shift: int, from: nat, to: nat, pos: nat, text: bytes, next: nat)
    requires Same(a, b, shift, from, to) && from <= pos <= |a| && |b| <= USIZE_MAX
    requires ParseBytes(a, pos) == Done(text, next) && next <= to
    ensures ParseBytes(b, pos + shift) == Done(text, next + shift)
  {
    hide ParseUsize;
    var p := Scan(a, pos, COLON);
    LocalScan(a, b, shift, from, to, pos, COLON);
    SameSlice(a, b, shift, from, to, pos, p);
    SameSlice(a, b, shift, from, to, p + 1, next);
    BytesRead(b, pos + shift, p + shift, |text|);
  }

  /** A decoded region decodes to the same value wherever it stands. */
  lemma {:induction false} Local(a: bytes, b: bytes, shift: int, from: nat, to: nat, pos: nat)
    requires Same(a, b, shift, from, to) && from <= pos <= |a| && |b| <= USIZE_MAX
    requires ParseValue(a, pos).Done? && ParseValue(a, pos).next <= to
    ensures ParseValue(b, pos + shift) == Done(ParseValue(a, pos).value, ParseValue(a, pos).next + shift)
    decreases |a| - pos, 0
  {
    hide Same, ParseInt, ParseBytes, ParseItems, ParseEntries, Scan;
    SameAt(a, b, shift, from, to, pos);
    if a[pos] == DICT_MARK {
      LocalEntries(a, b, shift, from, to, pos + 1);
    } else if a[pos] == LIST_MARK {
      LocalItems(a, b, shift, from, to, pos + 1);
    } else if a[pos] == INT_MARK {
      LocalInt(a, b, shift, from, to, pos);
    } else {
      var r := ParseBytes(a, pos);
      LocalBytes(a, b, shift, from, to, pos, r.value, r.next);
    }
  }

  lemma {:induction false} LocalItems(a: bytes, b: bytes, shift: int, from: nat, to: nat, pos: nat)
    requires Same(a, b, shift, from, to) && from <= pos <= |a| && |b| <= USIZE_MAX
    requires ParseItems(a, pos).Done? && ParseItems(a, pos).next <= to
    ensures ParseItems(b, pos + shift) == Done(ParseItems(a, pos).value, ParseItems(a, pos).next + shift)
    decreases |a| - pos, 1
  {
    hide ParseValue;
    SameAt(a, b, shift, from, to, pos);
    if a[pos] != END_MARK {
      var head := ParseValue(a, pos);
      var tail := ParseItems(a, head.next);
      Local(a, b, shift, from, to, pos);
      LocalItems(a, b, shift, from, to, head.next);
      ItemsCons(b, pos + shift, head.value, head.next + shift, tail.value, tail.next + shift);
    }
  }

  function Shifted(entry: RawEntry, shift: int): RawEntry
    requires 0 <= entry.start + shift && 0 <= entry.end + shift
  {
    entry.(start := entry.start + shift, end := entry.end + shift)
  }

  lemma {:induction false} LocalEntry(a: bytes, b: bytes, shift: int, from: nat, to: nat, pos: nat, entry: RawEntry)
    requires Same(a, b, shift, from, to) && from <= pos <= |a| && |b| <= USIZE_MAX
    requires ParseEntry(a, pos) == Done(entry, entry.end) && entry.end <= to
    ensures from <= entry.start <= entry.end
    ensures ParseEntry(b, pos + shift) == Done(Shifted(entry, shift), entry.end + shift)
    decreases |a| - pos, 1
  {
    hide ParseBytes, ParseValue, ParseEntry, Scan, Same;
    SameBounds(a, b, shift, from, to);
    EntryReads(a, pos, entry);
    LocalBytes(a, b, shift, from, to, pos, entry.key, entry.start);
    Local(a, b, shift, from, to, entry.start);
    EntryReads(b, pos + shift, Shifted(entry, shift));
  }

  lemma {:induction false} LocalEntries(a: bytes, b: bytes, shift: int, from: nat, to: nat, pos: nat)
    requires Same(a, b, shift, from, to) && from <= pos <= |a| && |b| <= USIZE_MAX
    requires ParseEntries(a, pos).Done? && ParseEntries(a, pos).next <= to
    ensures Reads(Pairs(ParseEntries(a, pos).value), b, pos + shift, ParseEntries(a, pos).next + shift)
    decreases |a| - pos, 2
  {
    hide ParseBytes, ParseValue, Scan;
    SameAt(a, b, shift, from, to, pos);
    if a[pos] != END_MARK {
      var entry := ParseEntry(a, pos).value;
      var tail := ParseEntries(a, entry.end);
      LocalEntry(a, b, shift, from, to, pos, entry);
      LocalEntries(a, b, shift, from, to, entry.end);
      PairsCons(entry, tail.value);
      ReadsCons(Shifted(entry, shift), Pairs(tail.value), b, pos + shift, tail.next + shift);
    }
  }

  lemma {:induction false} SameAlone(a: bytes, from: nat, to: nat, lo: nat)
    requires from <= lo <= to <= |a|
    ensures Same(a, a[from..to], 0 - from as int, lo, to)
    decreases |a| - lo
  {
    if lo < to { SameAlone(a, from, to, lo + 1); }
  }

  /** The bytes a decode consumed, taken alone, decode to the same value and
      are consumed in full. */
  lemma {:induction false} DecodesAlone(data: bytes, pos: nat)
    requires pos <= |data| <= USIZE_MAX && ParseValue(data, pos).Done?
    ensures var r := ParseValue(data, pos);
            ParseValue(data[pos..r.next], 0) == Done(r.value, r.next - pos)
  {
    hide ParseValue;
    var next := ParseValue(data, pos).next;
    SameAlone(data, pos, next, pos);
    Local(data, data[pos..next], 0 - pos as int, pos, next, pos);
  }
}
