/** The decoder and encoder as the repository runs them: a cursor advanced in
    place, and a buffer appended to. */
module BencodeDecoder {
  import opened Wrappers
  import opened Bytes
  import opened Decimal
  import opened SortedMap
  import opened Bencode

  class Decoder {
    const data: bytes
    var pos: nat

    constructor (data: bytes)
      ensures this.data == data && pos == 0
    {
      this.data := data;
      pos := 0;
    }

    /** `r` and the cursor are what the specification `p` computes. */
    ghost predicate Agrees<T>(r: Result<T, Error>, p: Parsed<T>)
      reads this
    {
      match p
      case Done(v, next) => r == Result.Ok(v) && pos == next
      case Fail(e) => r == Result.Err(e)
    }

    method DecodeValue() returns (r: Result<Value, Error>)
      requires pos <= |data|
      modifies this
      ensures pos <= |data| && Agrees(r, ParseValue(data, old(pos)))
      decreases |data| - pos, 1
    {
      if pos == |data| {
        return Result.Err(UnexpectedEnd);
      } else if data[pos] == DICT_MARK {
        r := DecodeDict();
      } else if data[pos] == LIST_MARK {
        r := DecodeList();
      } else if data[pos] == INT_MARK {
        r := DecodeInt();
      } else if IsDigit(data[pos]) {
        var b := DecodeBytes();
        r := match b case Ok(v) => Result.Ok(Bytes(v)) case Err(e) => Result.Err(e);
      } else {
        return Result.Err(InvalidTypeByte);
      }
    }

    method DecodeInt() returns (r: Result<Value, Error>)
      requires pos < |data| && data[pos] == INT_MARK
      modifies this
      ensures pos <= |data| && Agrees(r, ParseValue(data, old(pos)))
    {
      hide ParseI64, ParseBytes, ParseItems, ParseEntries;
      pos := pos + 1;
      var start := pos;
      while pos == |data| || data[pos] != END_MARK
        invariant start <= pos <= |data| && Scan(data, start, END_MARK) == Scan(data, pos, END_MARK)
        decreases |data| - pos
      {
        if pos == |data| { return Result.Err(UnterminatedInt); }
        pos := pos + 1;
      }
      match ParseI64(data[start..pos]) {
        case None => return Result.Err(InvalidInt);
        case Some(n) =>
          pos := pos + 1;
          return Result.Ok(Int(n));
      }
    }

    method DecodeBytes() returns (r: Result<bytes, Error>)
      requires pos <= |data|
      modifies this
      ensures pos <= |data| && Agrees(r, ParseBytes(data, old(pos)))
    {
      hide ParseUsize;
      var start := pos;
      while pos == |data| || data[pos] != COLON
        invariant start <= pos <= |data| && Scan(data, start, COLON) == Scan(data, pos, COLON)
        decreases |data| - pos
      {
        if pos == |data| { return Result.Err(UnterminatedLength); }
        pos := pos + 1;
      }
      match ParseUsize(data[start..pos]) {
        case None => return Result.Err(InvalidLength);
        case Some(len) =>
          pos := pos + 1;
          var end := pos + len;
          if end > USIZE_MAX { return Result.Err(LengthOverflow); }
          if end > |data| { return Result.Err(PastEnd); }
          var b := data[pos..end];
          pos := end;
          return Result.Ok(b);
      }
    }

    method DecodeList() returns (r: Result<Value, Error>)
      requires pos < |data| && data[pos] == LIST_MARK
      modifies this
      ensures pos <= |data| && Agrees(r, ParseValue(data, old(pos)))
      decreases |data| - pos, 0
    {
      hide ParseInt, ParseBytes;
      pos := pos + 1;
      ghost var start := pos;
      var items: seq<Value> := [];
      AfterNone(ParseItems(data, pos), ParseEntries(data, pos));
      while pos == |data| || data[pos] != END_MARK
        invariant start <= pos <= |data|
        invariant ParseItems(data, start) == AfterItems(items, ParseItems(data, pos))
        decreases |data| - pos
      {
        if pos == |data| { return Result.Err(UnterminatedList); }
        ghost var before := ParseItems(data, pos);
        var item := DecodeValue();
        if item.Err? { return item; }
        assert before == AfterItems([item.value], ParseItems(data, pos));
        AfterItemsTwice(items, item.value, ParseItems(data, pos));
        items := items + [item.value];
      }
      pos := pos + 1;
      assert items + [] == items;
      return Result.Ok(List(items));
    }

    method DecodeDict() returns (r: Result<Value, Error>)
      requires pos < |data| && data[pos] == DICT_MARK
      modifies this
      ensures pos <= |data| && Agrees(r, ParseValue(data, old(pos)))
      decreases |data| - pos, 0
    {
      hide ParseInt, ParseBytes;
      pos := pos + 1;
      ghost var start := pos;
      ghost var raw: seq<RawEntry> := [];
      var entries: seq<Pair<Value>> := [];
      AfterNone(ParseItems(data, pos), ParseEntries(data, pos));
      while pos == |data| || data[pos] != END_MARK
        invariant start <= pos <= |data|
        invariant ParseEntries(data, start) == AfterEntries(raw, ParseEntries(data, pos))
        invariant entries == Build(Pairs(raw))
        decreases |data| - pos
      {
        if pos == |data| { return Result.Err(UnterminatedDict); }
        ghost var before, keyAt := ParseEntries(data, pos), pos;
        var key := DecodeBytes();
        if key.Err? { return Result.Err(key.error); }
        ghost var valueAt := pos;
        var val := DecodeValue();
        if val.Err? { return val; }
        ghost var entry := RawEntry(key.value, val.value, valueAt, pos);
        EntryReads(data, keyAt, entry);
        assert before == AfterEntries([entry], ParseEntries(data, pos));
        AfterEntriesTwice(raw, entry, ParseEntries(data, pos));
        PairsSnoc(raw, entry);
        raw := raw + [entry];
        entries := Insert(entries, key.value, val.value);
      }
      pos := pos + 1;
      assert raw + [] == raw;
      return Result.Ok(Dict(entries));
    }
  }

  /** The result of a list loop that has already read `items`. */
  ghost function AfterItems(items: seq<Value>, rest: Parsed<seq<Value>>): Parsed<seq<Value>> {
    match rest
    case Fail(e) => Fail(e)
    case Done(more, next) => Done(items + more, next)
  }

  lemma {:induction false} AfterItemsTwice(items: seq<Value>, v: Value, rest: Parsed<seq<Value>>)
    ensures AfterItems(items, AfterItems([v], rest)) == AfterItems(items + [v], rest)
  {
    if rest.Done? { assert items + ([v] + rest.value) == items + [v] + rest.value; }
  }

  /** The result of a dict loop that has already read `raw`. */
  ghost function AfterEntries(raw: seq<RawEntry>, rest: Parsed<seq<RawEntry>>): Parsed<seq<RawEntry>> {
    match rest
    case Fail(e) => Fail(e)
    case Done(more, next) => Done(raw + more, next)
  }

  lemma {:induction false} AfterEntriesTwice(raw: seq<RawEntry>, entry: RawEntry, rest: Parsed<seq<RawEntry>>)
    ensures AfterEntries(raw, AfterEntries([entry], rest)) == AfterEntries(raw + [entry], rest)
  {
    if rest.Done? { assert raw + ([entry] + rest.value) == raw + [entry] + rest.value; }
  }

  lemma {:induction false} AfterNone(items: Parsed<seq<Value>>, entries: Parsed<seq<RawEntry>>)
    ensures AfterItems([], items) == items && AfterEntries([], entries) == entries
  {
    if items.Done? { assert [] + items.value == items.value; }
    if entries.Done? { assert [] + entries.value == entries.value; }
  }

  lemma {:induction false} PairsSnoc(raw: seq<RawEntry>, entry: RawEntry)
    ensures Pairs(raw + [entry]) == Pairs(raw) + [Pair(entry.key, entry.value)]
    ensures Build(Pairs(raw + [entry])) == Insert(Build(Pairs(raw)), entry.key, entry.value)
  {
    var all := Pairs(raw + [entry]);
    assert all == Pairs(raw) + [Pair(entry.key, entry.value)];
    assert all[..|all| - 1] == Pairs(raw);
  }

  method DecodeData(data: bytes) returns (r: Result<Value, Error>)
    ensures r == Decode(data)
  {
    var dec := new Decoder(data);
    r := dec.DecodeValue();
  }

  class Buffer {
    var contents: bytes

    constructor ()
      ensures contents == []
    {
      contents := [];
    }

    method Append(b: bytes)
      modifies this
      ensures contents == old(contents) + b
    {
      contents := contents + b;
    }
  }

  lemma {:induction false} Regroup(a: bytes, b: bytes, c: bytes, d: bytes)
    ensures a + b + c + d == a + (b + (c + d))
    ensures b == [] ==> a + c + d == a + (c + d)
  {
  }

  lemma {:induction false} EncodeUnfolds(value: Value)
    ensures value.List? ==> Encode(value) == [LIST_MARK] + EncodeItems(value.items)
    ensures value.Dict? ==> Encode(value) == [DICT_MARK] + EncodeEntries(value.entries)
  {
  }

  lemma {:induction false} ItemsFrom(items: seq<Value>, i: nat)
    requires i < |items|
    ensures EncodeItems(items[i..]) == Encode(items[i]) + EncodeItems(items[i + 1..])
  {
    assert items[i..][0] == items[i] && items[i..][1..] == items[i + 1..];
  }

  lemma {:induction false} EntriesFrom(entries: seq<Pair<Value>>, i: nat)
    requires i < |entries|
    ensures EncodeEntries(entries[i..])
            == EncodeBytes(entries[i].key) + (Encode(entries[i].value) + EncodeEntries(entries[i + 1..]))
  {
    hide EncodeBytes, Encode;
    assert entries[i..][0] == entries[i] && entries[i..][1..] == entries[i + 1..];
  }

  lemma {:induction false} NothingLeft(items: seq<Value>, entries: seq<Pair<Value>>)
    ensures items[0..] == items && entries[0..] == entries
    ensures EncodeItems(items[|items|..]) == [END_MARK] && EncodeEntries(entries[|entries|..]) == [END_MARK]
  {
  }

  method EncodeTo(value: Value, buf: Buffer)
    modifies buf
    ensures buf.contents == old(buf.contents) + Encode(value)
    decreases value, 1
  {
    hide IntText, EncodeBytes, EncodeItems, EncodeEntries;
    match value {
      case Int(n) =>
        buf.Append([INT_MARK]);
        buf.Append(IntText(n));
        buf.Append([END_MARK]);
      case Bytes(b) => AppendBytes(b, buf);
      case List(items) => EncodeListTo(value, buf);
      case Dict(entries) => EncodeDictTo(value, buf);
    }
  }

  method EncodeListTo(value: Value, buf: Buffer)
    requires value.List?
    modifies buf
    ensures buf.contents == old(buf.contents) + Encode(value)
    decreases value, 0
  {
    hide Encode, EncodeItems;
    ghost var before := buf.contents;
    var items := value.items;
    EncodeUnfolds(value);
    NothingLeft(items, []);
    buf.Append([LIST_MARK]);
    for i := 0 to |items|
      invariant buf.contents + EncodeItems(items[i..]) == before + Encode(value)
    {
      ghost var soFar := buf.contents;
      ItemsFrom(items, i);
      EncodeTo(items[i], buf);
      Regroup(soFar, [], Encode(items[i]), EncodeItems(items[i + 1..]));
    }
    buf.Append([END_MARK]);
  }

  method EncodeDictTo(value: Value, buf: Buffer)
    requires value.Dict?
    modifies buf
    ensures buf.contents == old(buf.contents) + Encode(value)
    decreases value, 0
  {
    hide Encode, EncodeEntries, EncodeBytes;
    ghost var before := buf.contents;
    var entries := value.entries;
    EncodeUnfolds(value);
    NothingLeft([], entries);
    buf.Append([DICT_MARK]);
    for i := 0 to |entries|
      invariant buf.contents + EncodeEntries(entries[i..]) == before + Encode(value)
    {
      ghost var soFar := buf.contents;
      EntriesFrom(entries, i);
      assert entries[i] in entries && entries[i].value < entries[i];
      AppendBytes(entries[i].key, buf);
      EncodeTo(entries[i].value, buf);
      Regroup(soFar, EncodeBytes(entries[i].key), Encode(entries[i].value), EncodeEntries(entries[i + 1..]));
    }
    buf.Append([END_MARK]);
  }

  method AppendBytes(b: bytes, buf: Buffer)
    modifies buf
    ensures buf.contents == old(buf.contents) + EncodeBytes(b)
  {
    buf.Append(NatText(|b|));
    buf.Append([COLON]);
    buf.Append(b);
  }

  method EncodeValue(value: Value) returns (r: bytes)
    ensures r == Encode(value)
  {
    var buf := new Buffer();
    EncodeTo(value, buf);
    r := buf.contents;
  }
}
