/**
 What the decoder accepts: the liberal bencode it reads, as the ways a value may
 be spelled. Numbers take signs and leading zeros, keys any order and repetition,
 and nothing is asked of what follows the value.
 */
module BencodeGrammar {
  import opened Wrappers
  import opened Bytes
  import opened Decimal
  import opened SortedMap
  import opened Bencode

  /** A value as spelled; `len` is the text of a length. */
  datatype Form =
    | IntForm(text: bytes)
    | BytesForm(len: bytes, b: bytes)
    | ListForm(items: seq<Form>)
    | DictForm(entries: seq<EntryForm>)

  datatype EntryForm = EntryForm(len: bytes, key: bytes, value: Form)

  function Written(f: Form): bytes
    decreases f
  {
    match f
    case IntForm(text) => [INT_MARK] + (text + [END_MARK])
    case BytesForm(len, b) => len + ([COLON] + b)
    case ListForm(items) => [LIST_MARK] + WrittenItems(items)
    case DictForm(entries) => [DICT_MARK] + WrittenEntries(entries)
  }

  function WrittenItems(items: seq<Form>): bytes
    decreases items
  {
    if items == [] then [END_MARK] else Written(items[0]) + WrittenItems(items[1..])
  }

  function WrittenEntries(entries: seq<EntryForm>): bytes
    decreases entries
  {
    if entries == [] then [END_MARK]
    else
      var first := entries[0];
      assert first.value < first;
      (first.len + ([COLON] + first.key)) + (Written(first.value) + WrittenEntries(entries[1..]))
  }

  /** Numbers that parse; a byte string's length starts with a digit, a key's may
      start with `+`. */
  predicate Formed(f: Form)
    decreases f
  {
    match f
    case IntForm(text) => ParseI64(text).Some?
    case BytesForm(len, b) => len != [] && IsDigit(len[0]) && ParseUsize(len) == Some(|b|)
    case ListForm(items) => FormedItems(items)
    case DictForm(entries) => FormedEntries(entries)
  }

  predicate FormedItems(items: seq<Form>)
    decreases items
  {
    items == [] || (Formed(items[0]) && FormedItems(items[1..]))
  }

  predicate FormedEntries(entries: seq<EntryForm>)
    decreases entries
  {
    entries == []
    || (var first := entries[0];
        assert first.value < first;
        ParseUsize(first.len) == Some(|first.key|) && Formed(first.value) && FormedEntries(entries[1..]))
  }

  /** The value meant: of entries with one key the last counts. */
  function Meaning(f: Form): Value
    requires Formed(f)
    decreases f
  {
    match f
    case IntForm(text) => Int(ParseI64(text).value)
    case BytesForm(_, b) => Bytes(b)
    case ListForm(items) => List(MeaningItems(items))
    case DictForm(entries) => Dict(Build(MeaningEntries(entries)))
  }

  function MeaningItems(items: seq<Form>): seq<Value>
    requires FormedItems(items)
    decreases items
  {
    if items == [] then [] else [Meaning(items[0])] + MeaningItems(items[1..])
  }

  function MeaningEntries(entries: seq<EntryForm>): seq<Pair<Value>>
    requires FormedEntries(entries)
    decreases entries
  {
    if entries == [] then []
    else
      var first := entries[0];
      assert first.value < first;
      [Pair(first.key, Meaning(first.value))] + MeaningEntries(entries[1..])
  }

  // ---------- Every spelling is accepted ----------

  lemma {:induction false} NumberText(text: bytes)
    requires ParseI64(text).Some? || ParseUsize(text).Some?
    ensures text != [] && END_MARK !in text && COLON !in text
    ensures text[0] != END_MARK
  {
    hide NatValue;
    var ds := if text[0] == PLUS || text[0] == MINUS then text[1..] else text;
    forall i | 0 <= i < |text| ensures text[i] != END_MARK && text[i] != COLON {
      if |ds| < |text| && i > 0 { assert text[i] == ds[i - 1]; }
    }
  }

  lemma {:induction false} IntAccepted(text: bytes, data: bytes, pos: nat)
    requires ParseI64(text).Some? && At(data, pos, [INT_MARK] + (text + [END_MARK]))
    ensures pos < |data| && ParseValue(data, pos) == Done(Int(ParseI64(text).value), pos + |text| + 2)
  {
    hide ParseI64;
    NumberText(text);
    IntTextStands(text, data, pos);
  }

  lemma {:induction false} BytesAccepted(len: bytes, b: bytes, data: bytes, pos: nat)
    requires ParseUsize(len) == Some(|b|) && |data| <= USIZE_MAX && At(data, pos, len + ([COLON] + b))
    ensures len != [] && pos < |data| && data[pos] == len[0] && data[pos] != END_MARK
    ensures ParseBytes(data, pos) == Done(b, pos + |len| + 1 + |b|)
    ensures IsDigit(len[0]) ==> ParseValue(data, pos) == Done(Bytes(b), pos + |len| + 1 + |b|)
  {
    hide ParseUsize, ParseBytes;
    NumberText(len);
    BytesTextStands(len, b, data, pos);
    AtFirst(data, pos, len);
  }

  lemma {:induction false} WrittenStart(f: Form)
    requires Formed(f)
    ensures Written(f) != [] && Written(f)[0] != END_MARK
  {
    hide ParseUsize, ParseI64;
  }

  /** Wherever a spelling stands in any data, decoding there gives what it means
      and stops at its end. */
  lemma {:induction false} Accepts(f: Form, data: bytes, pos: nat)
    requires Formed(f) && |data| <= USIZE_MAX && At(data, pos, Written(f))
    ensures ParseValue(data, pos) == Done(Meaning(f), pos + |Written(f)|)
    decreases f
  {
    hide At, ParseI64, ParseUsize;
    match f
    case IntForm(text) => IntAccepted(text, data, pos);
    case BytesForm(len, b) => BytesAccepted(len, b, data, pos);
    case ListForm(items) =>
      AtConcat(data, pos, [LIST_MARK], WrittenItems(items));
      AtFirst(data, pos, [LIST_MARK]);
      ItemsAccepted(items, data, pos + 1);
    case DictForm(entries) =>
      AtConcat(data, pos, [DICT_MARK], WrittenEntries(entries));
      AtFirst(data, pos, [DICT_MARK]);
      EntriesAccepted(entries, data, pos + 1);
  }

  lemma {:induction false} ItemsAccepted(items: seq<Form>, data: bytes, pos: nat)
    requires FormedItems(items) && |data| <= USIZE_MAX && At(data, pos, WrittenItems(items))
    ensures ParseItems(data, pos) == Done(MeaningItems(items), pos + |WrittenItems(items)|)
    decreases items
  {
    hide At, ParseValue, Formed, Meaning, Written;
    if items == [] {
      AtFirst(data, pos, [END_MARK]);
    } else {
      AtConcat(data, pos, Written(items[0]), WrittenItems(items[1..]));
      WrittenStart(items[0]);
      AtFirst(data, pos, Written(items[0]));
      Accepts(items[0], data, pos);
      var next := pos + |Written(items[0])|;
      ItemsAccepted(items[1..], data, next);
      ItemsCons(data, pos, Meaning(items[0]), next, MeaningItems(items[1..]), next + |WrittenItems(items[1..])|);
    }
  }

  lemma {:induction false} EntriesAccepted(entries: seq<EntryForm>, data: bytes, pos: nat)
    requires FormedEntries(entries) && |data| <= USIZE_MAX && At(data, pos, WrittenEntries(entries))
    ensures Reads(MeaningEntries(entries), data, pos, pos + |WrittenEntries(entries)|)
    decreases entries
  {
    hide At, ParseValue, ParseBytes, Formed, Meaning, Written, ParseUsize;
    if entries == [] {
      AtFirst(data, pos, [END_MARK]);
    } else {
      var first, rest := entries[0], entries[1..];
      assert first.value < first;
      var key := first.len + ([COLON] + first.key);
      var start := pos + |key|;
      var end := start + |Written(first.value)|;
      AtConcat(data, pos, key, Written(first.value) + WrittenEntries(rest));
      AtConcat(data, start, Written(first.value), WrittenEntries(rest));
      BytesAccepted(first.len, first.key, data, pos);
      Within(data, start, Written(first.value));
      Accepts(first.value, data, start);
      EntriesAccepted(rest, data, end);
      var entry := RawEntry(first.key, Meaning(first.value), start, end);
      EntryReads(data, pos, entry);
      ReadsCons(entry, MeaningEntries(rest), data, pos, end + |WrittenEntries(rest)|);
    }
  }

  lemma {:induction false} Within(data: bytes, pos: nat, s: bytes)
    requires At(data, pos, s)
    ensures pos + |s| <= |data|
  {
  }

  // ---------- Nothing else is ----------

  lemma {:induction false} StandsThere(data: bytes, pos: nat, next: nat)
    requires pos <= next <= |data|
    ensures At(data, pos, data[pos..next])
  {
  }

  lemma {:induction false} IntSpelled(data: bytes, pos: nat) returns (f: Form)
    requires pos < |data| && data[pos] == INT_MARK && ParseInt(data, pos).Done?
    ensures f.IntForm? && Formed(f) && At(data, pos, Written(f))
    ensures ParseInt(data, pos) == Done(Meaning(f).n, pos + |Written(f)|)
  {
    hide ParseI64, At;
    var p := Scan(data, pos + 1, END_MARK);
    f := IntForm(data[pos + 1..p]);
    StandsThere(data, pos, p + 1);
    assert data[pos..p + 1] == [INT_MARK] + (data[pos + 1..p] + [END_MARK]);
  }

  lemma {:induction false} BytesSpelled(data: bytes, pos: nat) returns (len: bytes, b: bytes)
    requires pos <= |data| && ParseBytes(data, pos).Done?
    ensures ParseUsize(len) == Some(|b|) && At(data, pos, len + ([COLON] + b))
    ensures ParseBytes(data, pos) == Done(b, pos + |len| + 1 + |b|)
    ensures pos < |data| && len != [] && len[0] == data[pos]
  {
    hide ParseUsize, At;
    var p := Scan(data, pos, COLON);
    var next := ParseBytes(data, pos).next;
    len, b := data[pos..p], data[p + 1..next];
    StandsThere(data, pos, next);
    assert data[pos..next] == len + ([COLON] + b);
    NumberText(len);
  }

  /** Whatever decodes was a spelling of its value, of exactly the bytes consumed. */
  lemma {:induction false} Spelled(data: bytes, pos: nat) returns (f: Form)
    requires pos <= |data| && ParseValue(data, pos).Done?
    ensures Formed(f) && At(data, pos, Written(f))
    ensures ParseValue(data, pos) == Done(Meaning(f), pos + |Written(f)|)
    decreases |data| - pos, 0
  {
    hide At, ParseI64, ParseUsize, ParseInt, ParseBytes, ParseItems, ParseEntries;
    if data[pos] == DICT_MARK {
      var entries := EntriesSpelled(data, pos + 1);
      f := DictForm(entries);
      MarkStands(data, pos);
      AtConcat(data, pos, [DICT_MARK], WrittenEntries(entries));
    } else if data[pos] == LIST_MARK {
      var items := ItemsSpelled(data, pos + 1);
      f := ListForm(items);
      MarkStands(data, pos);
      AtConcat(data, pos, [LIST_MARK], WrittenItems(items));
    } else if data[pos] == INT_MARK {
      f := IntSpelled(data, pos);
    } else {
      var len, b := BytesSpelled(data, pos);
      f := BytesForm(len, b);
    }
  }

  lemma {:induction false} MarkStands(data: bytes, pos: nat)
    requires pos < |data|
    ensures At(data, pos, [data[pos]])
  {
  }

  lemma {:induction false} ItemsSpelled(data: bytes, pos: nat) returns (items: seq<Form>)
    requires pos <= |data| && ParseItems(data, pos).Done?
    ensures FormedItems(items) && At(data, pos, WrittenItems(items))
    ensures ParseItems(data, pos) == Done(MeaningItems(items), pos + |WrittenItems(items)|)
    decreases |data| - pos, 1
  {
    hide At, ParseValue, Formed, Meaning, Written;
    if data[pos] == END_MARK {
      items := [];
      MarkStands(data, pos);
    } else {
      var f := Spelled(data, pos);
      var rest := ItemsSpelled(data, pos + |Written(f)|);
      items := [f] + rest;
      AtConcat(data, pos, Written(f), WrittenItems(rest));
    }
  }

  lemma {:induction false} EntriesSpelled(data: bytes, pos: nat) returns (entries: seq<EntryForm>)
    requires pos <= |data| && ParseEntries(data, pos).Done?
    ensures FormedEntries(entries) && At(data, pos, WrittenEntries(entries))
    ensures Reads(MeaningEntries(entries), data, pos, pos + |WrittenEntries(entries)|)
    decreases |data| - pos, 1
  {
    hide At, ParseValue, ParseBytes, Formed, Meaning, Written, ParseUsize;
    if data[pos] == END_MARK {
      entries := [];
      MarkStands(data, pos);
    } else {
      var entry := ParseEntry(data, pos).value;
      EntryReads(data, pos, entry);
      var len, key := BytesSpelled(data, pos);
      var f := Spelled(data, entry.start);
      var rest := EntriesSpelled(data, entry.end);
      entries := [EntryForm(len, key, f)] + rest;
      AtConcat(data, entry.start, Written(f), WrittenEntries(rest));
      AtConcat(data, pos, len + ([COLON] + key), Written(f) + WrittenEntries(rest));
      ReadsCons(entry, MeaningEntries(rest), data, pos, entry.end + |WrittenEntries(rest)|);
    }
  }

  /** `decode` gives a value if and only if the data starts with one of its
      spellings. */
  lemma {:induction false} DecodesIff(data: bytes, v: Value)
    requires |data| <= USIZE_MAX
    ensures Decode(data) == Result.Ok(v)
            <==> exists f: Form :: Formed(f) && Meaning(f) == v && At(data, 0, Written(f))
  {
    hide Formed, Meaning, Written, At, ParseValue;
    if Decode(data) == Result.Ok(v) { var f := Spelled(data, 0); }
    forall f: Form | Formed(f) && Meaning(f) == v && At(data, 0, Written(f)) ensures Decode(data) == Result.Ok(v) {
      Accepts(f, data, 0);
    }
  }
}
