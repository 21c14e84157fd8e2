/** A query built from a template reads back, parameter by parameter. */
module QueryLaws {
  import opened Wrappers
  import opened Bytes
  import opened Decimal
  import opened Announce
  import opened Peer
  import opened AnnounceLaws

  // ---------- Templates ----------

  datatype ItemValue = Literal(text: bytes) | Hole(p: Placeholder)

  /** One `name=value` pair of a template, `{event}` possibly following it. */
  datatype Item = Item(name: bytes, value: ItemValue, eventAfter: bool)

  ghost predicate ValidItem(it: Item) {
    && it.name != [] && AMP !in it.name && EQUALS !in it.name && OPEN !in it.name
    && match it.value
       case Literal(text) => AMP !in text && OPEN !in text
       case Hole(p) => p != Event
  }

  function ValueText(v: ItemValue): bytes {
    match v case Literal(text) => text case Hole(p) => Name(p)
  }

  function ItemText(it: Item): bytes {
    it.name + ([EQUALS] + (ValueText(it.value) + (if it.eventAfter then Name(Event) else [])))
  }

  /** The pairs joined by `&`. */
  function TemplateText(items: seq<Item>): bytes {
    if items == [] then []
    else ItemText(items[0]) + (if |items| == 1 then [] else [AMP] + TemplateText(items[1..]))
  }

  // ---------- What should be read back ----------

  function ValueFilled(v: ItemValue, values: Values): bytes {
    match v case Literal(text) => text case Hole(p) => values(p)
  }

  /** The parameters one pair contributes. */
  function ItemParams(it: Item, values: Values, event: AnnounceEvent): seq<Param> {
    [Param(it.name, ValueFilled(it.value, values))]
    + (if it.eventAfter && event != NoEvent then [Param(EVENT_FIELD, EventName(event))] else [])
  }

  function ExpectedParams(items: seq<Item>, values: Values, event: AnnounceEvent): seq<Param> {
    if items == [] then []
    else ItemParams(items[0], values, event) + ExpectedParams(items[1..], values, event)
  }

  /** No value can be mistaken for query syntax, and `{event}` is the fragment. */
  ghost predicate CleanValues(values: Values, event: AnnounceEvent) {
    && (forall p | p != Event :: AMP !in values(p) && OPEN !in values(p))
    && values(Event) == QueryFragment(event)
  }

  // ---------- Parsing concatenations ----------

  lemma {:induction false} IndexOfConcat(a: bytes, rest: bytes, c: byte)
    requires c !in a
    ensures IndexOf(a + rest, c) == |a| + IndexOf(rest, c)
  {
    if a == [] {
      assert [] + rest == rest;
    } else {
      assert (a + rest)[1..] == a[1..] + rest && a[0] in a;
      IndexOfConcat(a[1..], rest, c);
    }
  }

  lemma {:induction false} ParseAt(s: bytes, i: nat)
    requires i == IndexOf(s, AMP) < |s|
    ensures ParseQueryParams(s) == ParsePair(s[..i]) + ParseQueryParams(s[i + 1..])
  {
    hide ParsePair, IndexOf;
  }

  lemma {:induction false} ParseHead(head: bytes, rest: bytes)
    requires AMP !in head
    ensures ParseQueryParams(head + ([AMP] + rest)) == ParsePair(head) + ParseQueryParams(rest)
  {
    hide ParsePair, IndexOf, ParseQueryParams;
    var s := head + ([AMP] + rest);
    IndexOfConcat(head, [AMP] + rest, AMP);
    assert ([AMP] + rest)[0] == AMP && IndexOf([AMP] + rest, AMP) == 0;
    assert s[..|head|] == head && s[|head| + 1..] == rest;
    ParseAt(s, |head|);
  }

  lemma {:induction false} ParseLast(head: bytes)
    requires AMP !in head
    ensures ParseQueryParams(head) == ParsePair(head)
  {
    hide ParsePair, IndexOf;
    IndexOfConcat(head, [], AMP);
    assert head + [] == head && IndexOf([], AMP) == 0;
    assert head[..|head|] == head;
  }

  /** `&` separates: the two sides parse on their own. */
  lemma {:induction false} ParseJoined(a: bytes, b: bytes)
    ensures ParseQueryParams(a + ([AMP] + b)) == ParseQueryParams(a) + ParseQueryParams(b)
    decreases |a|
  {
    hide ParsePair, ParseQueryParams;
    var i := IndexOf(a, AMP);
    var head := a[..i];
    if i == |a| {
      assert head == a;
      ParseLast(a);
      ParseHead(a, b);
    } else {
      var rest := a[i + 1..];
      assert a == head + ([AMP] + rest);
      assert a + ([AMP] + b) == head + ([AMP] + (rest + ([AMP] + b)));
      ParseHead(head, rest);
      ParseHead(head, rest + ([AMP] + b));
      ParseJoined(rest, b);
      assert ParsePair(head) + ParseQueryParams(rest) + ParseQueryParams(b)
             == ParsePair(head) + (ParseQueryParams(rest) + ParseQueryParams(b));
    }
  }

  lemma {:induction false} ParseOne(name: bytes, value: bytes)
    requires name != [] && AMP !in name && EQUALS !in name && AMP !in value
    ensures ParseQueryParams(name + ([EQUALS] + value)) == [Param(name, value)]
  {
    hide IndexOf, ParseQueryParams;
    var s := name + ([EQUALS] + value);
    ParseLast(s);
    IndexOfConcat(name, [EQUALS] + value, EQUALS);
    assert ([EQUALS] + value)[0] == EQUALS && IndexOf([EQUALS] + value, EQUALS) == 0;
    assert s[..|name|] == name && s[|name| + 1..] == value;
  }

  /** A piece without `=` is a name with no value, and one without a name is
      dropped; a value runs on over any further `=`. */
  lemma {:induction false} PiecesParse(name: bytes, value: bytes)
    requires AMP !in name && EQUALS !in name && AMP !in value
    ensures ParseQueryParams(name) == if name == [] then [] else [Param(name, [])]
    ensures ParseQueryParams(name + ([EQUALS] + value)) == if name == [] then [] else [Param(name, value)]
  {
    hide ParseQueryParams;
    ParseLast(name);
    IndexOfConcat(name, [], EQUALS);
    assert name + [] == name;
    if name == [] {
      assert name + ([EQUALS] + value) == [EQUALS] + value;
      ParseLast([EQUALS] + value);
    } else {
      ParseOne(name, value);
    }
  }

  // ---------- Substituting into a template ----------

  function ItemFilled(it: Item, values: Values): bytes {
    it.name + ([EQUALS] + (ValueFilled(it.value, values) + (if it.eventAfter then values(Event) else [])))
  }

  lemma {:induction false} SubstituteValue(v: ItemValue, rest: bytes, values: Values)
    requires v.Literal? ==> OPEN !in v.text
    ensures Substitute(ValueText(v) + rest, values, ALL) == ValueFilled(v, values) + Substitute(rest, values, ALL)
    ensures WellBraced(ValueText(v) + rest) == WellBraced(rest)
  {
    hide Name, Substitute, WellBraced;
    match v
    case Literal(text) => SubstitutePlain(text, rest, values, ALL);
    case Hole(p) => SubstituteName(p, rest, values);
  }

  lemma {:induction false} SubstituteItem(it: Item, rest: bytes, values: Values)
    requires ValidItem(it)
    ensures Substitute(ItemText(it) + rest, values, ALL) == ItemFilled(it, values) + Substitute(rest, values, ALL)
    ensures WellBraced(ItemText(it) + rest) == WellBraced(rest)
  {
    hide Name, Substitute, WellBraced, ValueFilled, ValueText;
    var ev := if it.eventAfter then Name(Event) else [];
    var evFilled := if it.eventAfter then values(Event) else [];
    var val, filled := ValueText(it.value), ValueFilled(it.value, values);
    assert ItemText(it) + rest == it.name + ([EQUALS] + (val + (ev + rest)));
    SubstitutePlain(it.name, [EQUALS] + (val + (ev + rest)), values, ALL);
    SubstitutePlain([EQUALS], val + (ev + rest), values, ALL);
    SubstituteValue(it.value, ev + rest, values);
    if it.eventAfter {
      SubstituteName(Event, rest, values);
    } else {
      assert ev + rest == rest;
    }
    var tail := Substitute(rest, values, ALL);
    assert Substitute(ev + rest, values, ALL) == evFilled + tail;
    assert it.name + ([EQUALS] + (filled + (evFilled + tail))) == ItemFilled(it, values) + tail;
  }

  lemma {:induction false} ParseItem(it: Item, values: Values, event: AnnounceEvent)
    requires ValidItem(it) && CleanValues(values, event)
    ensures ParseQueryParams(ItemFilled(it, values)) == ItemParams(it, values, event)
  {
    hide ParseQueryParams, Name, EventName, Ascii;
    var filled := ValueFilled(it.value, values);
    var pair := it.name + ([EQUALS] + filled);
    ParseOne(it.name, filled);
    if it.eventAfter && event != NoEvent {
      EventFieldPlain(event);
      ParseOne(EVENT_FIELD, EventName(event));
      ParseJoined(pair, EVENT_FIELD + ([EQUALS] + EventName(event)));
      assert ItemFilled(it, values) == pair + ([AMP] + (EVENT_FIELD + ([EQUALS] + EventName(event))));
    } else {
      assert ItemFilled(it, values) == pair;
    }
  }

  lemma {:induction false} EventFieldPlain(event: AnnounceEvent)
    ensures EVENT_FIELD != [] && AMP !in EVENT_FIELD && EQUALS !in EVENT_FIELD && AMP !in EventName(event)
  {
  }

  lemma {:induction false} SubstitutedTemplate(items: seq<Item>, values: Values, event: AnnounceEvent)
    requires (forall it | it in items :: ValidItem(it)) && CleanValues(values, event)
    ensures WellBraced(TemplateText(items))
    ensures ParseQueryParams(Substitute(TemplateText(items), values, ALL)) == ExpectedParams(items, values, event)
  {
    hide Substitute, WellBraced, ItemText, ItemFilled, ItemParams, ValidItem, CleanValues, ParseQueryParams;
    if items == [] {
      NothingParsed(values);
    } else {
      var first, rest := items[0], items[1..];
      assert first in items;
      ParseItem(first, values, event);
      if |items| == 1 {
        SubstituteItem(first, [], values);
        NothingParsed(values);
        assert ItemFilled(first, values) + [] == ItemFilled(first, values);
        assert ExpectedParams(rest, values, event) == [];
      } else {
        var tail := TemplateText(rest);
        SubstituteItem(first, [AMP] + tail, values);
        SubstitutePlain([AMP], tail, values, ALL);
        SubstitutedTemplate(rest, values, event);
        ParseJoined(ItemFilled(first, values), Substitute(tail, values, ALL));
      }
    }
  }

  lemma {:induction false} NothingParsed(values: Values)
    ensures WellBraced([]) && Substitute([], values, ALL) == [] && ParseQueryParams([]) == []
  {
  }

  // ---------- The announce and the capture handler ----------

  ghost predicate ValidSession(s: Session) {
    && |s.infoHash| == PEER_ID_LEN && |s.peerId| == PEER_ID_LEN
    && AMP !in s.key && OPEN !in s.key
  }

  lemma {:induction false} NatTextPlain(n: nat)
    ensures AMP !in NatText(n) && OPEN !in NatText(n)
  {
    if n >= 10 { NatTextPlain(n / 10); }
  }

  lemma {:induction false} SessionValuesClean(s: Session, state: PeerState, event: AnnounceEvent)
    requires ValidSession(s)
    ensures CleanValues(ValuesOf(s, state, event), event) && Braceless(ValuesOf(s, state, event), ALL)
  {
    hide ValueOf;
    forall p ensures OPEN !in ValueOf(s, state, event, p) && (p != Event ==> AMP !in ValueOf(s, state, event, p)) {
      SessionValueClean(s, state, event, p);
    }
    EventValue(s, state, event);
  }

  lemma {:induction false} EventValue(s: Session, state: PeerState, event: AnnounceEvent)
    ensures ValueOf(s, state, event, Event) == QueryFragment(event)
  {
  }

  lemma {:induction false} SessionValueClean(s: Session, state: PeerState, event: AnnounceEvent, p: Placeholder)
    requires ValidSession(s)
    ensures OPEN !in ValueOf(s, state, event, p)
    ensures p != Event ==> AMP !in ValueOf(s, state, event, p)
  {
    hide PercentEncode, NatText, QueryFragment;
    match p
    case InfoHash => EncodeAvoids(s.infoHash);
    case PeerId => EncodeAvoids(s.peerId);
    case Port => NatTextPlain(s.port);
    case Uploaded => NatTextPlain(state.uploaded);
    case Downloaded => NatTextPlain(state.downloaded);
    case Left => NatTextPlain(state.left);
    case Key =>
    case Event => FragmentBraceless(event);
    case Numwant =>
      NatTextPlain(0);
      NatTextPlain(s.numwant);
  }

  lemma {:induction false} FragmentBraceless(event: AnnounceEvent)
    ensures OPEN !in QueryFragment(event)
  {
    hide EventName, Ascii;
    EventNameBraceless(event);
    assert OPEN !in EVENT_FIELD by { EventFieldBraceless(); }
  }

  lemma {:induction false} EventFieldBraceless()
    ensures OPEN !in EVENT_FIELD
  {
  }

  lemma {:induction false} EventNameBraceless(event: AnnounceEvent)
    ensures OPEN !in EventName(event)
  {
  }

  /** For every template of pairs, the query built for any state and event
      reads back as the names in template order, each with its value, and
      `event` where it was inserted. */
  lemma {:induction false} QueryReadsBack(items: seq<Item>, s: Session, state: PeerState, event: AnnounceEvent)
    requires (forall it | it in items :: ValidItem(it)) && ValidSession(s) && s.queryTemplate == TemplateText(items)
    ensures ParseQueryParams(Chain(s.queryTemplate, ValuesOf(s, state, event), |ORDER|))
            == ExpectedParams(items, ValuesOf(s, state, event), event)
  {
    hide ParseQueryParams, Chain, ValuesOf, ExpectedParams, TemplateText, ValidItem, ValidSession, CleanValues;
    var values := ValuesOf(s, state, event);
    SessionValuesClean(s, state, event);
    SubstitutedTemplate(items, values, event);
    WellBracedIsSafe(s.queryTemplate);
    ChainIsSimultaneous(s.queryTemplate, values);
  }

  /** The binary fields decode back to the original bytes, for all values. */
  lemma {:induction false} BinaryFieldsDecode(s: Session, state: PeerState, event: AnnounceEvent)
    ensures PercentDecode(ValueFilled(Hole(InfoHash), ValuesOf(s, state, event))) == s.infoHash
    ensures PercentDecode(ValueFilled(Hole(PeerId), ValuesOf(s, state, event))) == s.peerId
  {
    DecodeEncode(s.infoHash);
    DecodeEncode(s.peerId);
  }

  /** The counters, the port and the wanted peers read back as numbers, each
      under its own placeholder; a peer that stops wants none. */
  lemma {:induction false} NumbersReadBack(s: Session, state: PeerState, event: AnnounceEvent)
    requires s.port <= USIZE_MAX
    ensures var values := ValuesOf(s, state, event);
            && ParseUsize(values(Uploaded)) == Some(state.uploaded)
            && ParseUsize(values(Downloaded)) == Some(state.downloaded)
            && ParseUsize(values(Left)) == Some(state.left)
            && ParseUsize(values(Port)) == Some(s.port)
            && ParseUsize(values(Numwant)) == Some(if event.Stopped? then 0 else s.numwant)
  {
    hide NatText, ParseUsize;
    UsizeRoundTrip(state.uploaded);
    UsizeRoundTrip(state.downloaded);
    UsizeRoundTrip(state.left);
    UsizeRoundTrip(s.port);
    UsizeRoundTrip(if event.Stopped? then 0 else s.numwant);
  }

  // ---------- What the handler keeps ----------

  /** Every `peer_id` and `numwant` pair carries its own placeholder. */
  ghost predicate Honest(items: seq<Item>) {
    forall it | it in items ::
      && (it.name == PEER_ID_FIELD ==> it.value == Hole(PeerId))
      && (it.name == NUMWANT_FIELD ==> it.value == Hole(Numwant))
  }

  ghost predicate Has(items: seq<Item>, name: bytes) {
    exists it :: it in items && it.name == name
  }

  lemma {:induction false} ReadAppend(a: seq<Param>, b: seq<Param>)
    ensures ReadParams(a + b) == ReadFrom(ReadParams(a), b)
  {
    if b == [] {
      assert a + [] == a;
    } else {
      var init, last := b[..|b| - 1], b[|b| - 1];
      assert a + b == (a + init) + [last];
      assert (a + b)[..|a + b| - 1] == a + init;
      ReadAppend(a, init);
    }
  }

  function ReadFrom(a: Announced, params: seq<Param>): Announced {
    if params == [] then a else ReadParam(ReadFrom(a, params[..|params| - 1]), params[|params| - 1])
  }

  lemma {:induction false} FieldsDiffer()
    ensures PEER_ID_FIELD != NUMWANT_FIELD && EVENT_FIELD != PEER_ID_FIELD && EVENT_FIELD != NUMWANT_FIELD
  {
    assert PEER_ID_FIELD[0] == 112 && NUMWANT_FIELD[0] == 110 && EVENT_FIELD[0] == 101;
  }

  /** Of several parameters the last one counts: the last `peer_id` of twenty
      bytes, and the last `numwant`, which is none unless it is a number of 32
      bits; without any, twenty zeros and none. */
  lemma {:induction false} LastCounts(a: seq<Param>, p: Param, b: seq<Param>)
    ensures ReadParams([]) == Announced(seq(20, _ => 0), None)
    ensures p.key == Ascii("peer_id") && |PercentDecode(p.value)| == 20
            && (forall q | q in b :: q.key == Ascii("peer_id") ==> |PercentDecode(q.value)| != 20)
            ==> ReadParams(a + [p] + b).peerId == PercentDecode(p.value)
    ensures p.key == Ascii("numwant") && (forall q | q in b :: q.key != Ascii("numwant"))
            ==> forall n: nat :: ReadParams(a + [p] + b).numwant == Some(n)
                                 <==> ParseUsize(p.value) == Some(n) && n < 0x1_0000_0000
    decreases |b|
  {
    hide Ascii, PercentDecode, ParseUsize;
    FieldsDiffer();
    if b == [] {
      assert a + [p] + b == a + [p] && (a + [p])[..|a|] == a;
    } else {
      var init, last := b[..|b| - 1], b[|b| - 1];
      assert (a + [p] + b)[..|a| + |b|] == a + [p] + init && last in b;
      LastCounts(a, p, init);
    }
  }

  /** Reading one pair of an honest template. */
  lemma {:induction false} ReadItem(a: Announced, it: Item, s: Session, state: PeerState, event: AnnounceEvent)
    requires ValidSession(s) && Honest([it])
    ensures ReadFrom(a, ItemParams(it, ValuesOf(s, state, event), event))
            == if it.name == PEER_ID_FIELD then a.(peerId := s.peerId)
               else if it.name == NUMWANT_FIELD then a.(numwant := Some(if event == Stopped then 0 else s.numwant))
               else a
  {
    hide PercentDecode, PercentEncode, ParseUsize, NatText;
    assert it in [it];
    FieldsDiffer();
    DecodeEncode(s.peerId);
    UsizeRoundTrip(if event == Stopped then 0 else s.numwant);
    var params := ItemParams(it, ValuesOf(s, state, event), event);
    var first := params[0];
    assert params[..1] == [first] && [first][..0] == [];
    assert ReadFrom(a, [first]) == ReadParam(a, first);
    if |params| == 2 { assert ReadFrom(a, params) == ReadParam(ReadFrom(a, [first]), params[1]); }
    else { assert params == [first]; }
  }

  lemma {:induction false} ReadExpected(a: Announced, items: seq<Item>, s: Session, state: PeerState, event: AnnounceEvent)
    requires ValidSession(s) && Honest(items)
    ensures var r := ReadFrom(a, ExpectedParams(items, ValuesOf(s, state, event), event));
            && r.peerId == (if Has(items, PEER_ID_FIELD) then s.peerId else a.peerId)
            && r.numwant == (if Has(items, NUMWANT_FIELD) then Some(if event == Stopped then 0 else s.numwant) else a.numwant)
    decreases |items|
  {
    hide ReadParam, ItemParams, ValuesOf, ValidSession;
    if items != [] {
      var first, rest := items[0], items[1..];
      var values := ValuesOf(s, state, event);
      assert items == [first] + rest && first in items;
      ReadItem(a, first, s, state, event);
      var b := ReadFrom(a, ItemParams(first, values, event));
      ReadExpected(b, rest, s, state, event);
      ReadFromAppend(a, ItemParams(first, values, event), ExpectedParams(rest, values, event));
      FieldsDiffer();
      assert Has(items, PEER_ID_FIELD) <==> first.name == PEER_ID_FIELD || Has(rest, PEER_ID_FIELD);
      assert Has(items, NUMWANT_FIELD) <==> first.name == NUMWANT_FIELD || Has(rest, NUMWANT_FIELD);
    }
  }

  lemma {:induction false} ReadFromAppend(a: Announced, p: seq<Param>, q: seq<Param>)
    ensures ReadFrom(a, p + q) == ReadFrom(ReadFrom(a, p), q)
  {
    hide ReadParam;
    if q == [] {
      assert p + [] == p;
    } else {
      var init, last := q[..|q| - 1], q[|q| - 1];
      assert (p + q)[..|p + q| - 1] == p + init;
      ReadFromAppend(a, p, init);
    }
  }

  /** The capture handler recovers the announcing peer's id and `numwant` from
      the query this server itself would send, for every honest template. */
  lemma {:induction false} HandlerRecoversIdentity(items: seq<Item>, s: Session, state: PeerState, event: AnnounceEvent)
    requires (forall it | it in items :: ValidItem(it)) && ValidSession(s) && s.queryTemplate == TemplateText(items)
    requires Honest(items) && Has(items, PEER_ID_FIELD)
    ensures var a := ReadParams(ParseQueryParams(Chain(s.queryTemplate, ValuesOf(s, state, event), |ORDER|)));
            && a.peerId == s.peerId
            && a.numwant == if Has(items, NUMWANT_FIELD) then Some(if event == Stopped then 0 else s.numwant) else None
  {
    hide ParseQueryParams, Chain, ValuesOf, ExpectedParams, ReadFrom, ReadParam, Has, Honest, ValidItem, ValidSession;
    QueryReadsBack(items, s, state, event);
    var params := ExpectedParams(items, ValuesOf(s, state, event), event);
    ReadAppend([], params);
    assert [] + params == params;
    ReadExpected(ReadParams([]), items, s, state, event);
  }

  // ---------- Through the URL ----------

  lemma {:induction false} QueryExtended(url: bytes, query: bytes)
    requires QUESTION in url
    ensures QueryOf(url + ([AMP] + query)) == QueryOf(url) + ([AMP] + query)
  {
    hide IndexOf;
    var i := IndexOf(url, QUESTION);
    var rest := [AMP] + query;
    IndexOfConcat(url[..i], url[i..] + rest, QUESTION);
    assert (url[i..] + rest)[0] == QUESTION && (url[i..])[0] == QUESTION;
    assert url + rest == url[..i] + (url[i..] + rest);
    assert (url + rest)[i + 1..] == url[i + 1..] + rest;
  }

  lemma {:induction false} QueryStarted(url: bytes, query: bytes)
    requires QUESTION !in url
    ensures QueryOf(url + ([QUESTION] + query)) == query
  {
    hide IndexOf;
    IndexOfConcat(url, [QUESTION] + query, QUESTION);
    assert ([QUESTION] + query)[0] == QUESTION && IndexOf([QUESTION] + query, QUESTION) == 0;
    assert (url + ([QUESTION] + query))[|url| + 1..] == query;
  }

  lemma {:induction false} NoQuery(url: bytes)
    requires QUESTION !in url
    ensures QueryOf(url) == []
  {
    hide IndexOf;
    IndexOfConcat(url, [], QUESTION);
    assert url + [] == url;
  }

  /** The query of the whole announce URL is the URL's own query, if it had
      one, followed by the built one. */
  lemma {:induction false} UrlQueryReadsBack(s: Session, state: PeerState, event: AnnounceEvent)
    ensures ParseQueryParams(QueryOf(BuildUrl(s, state, event)))
            == ParseQueryParams(QueryOf(s.announceUrl))
               + ParseQueryParams(Chain(s.queryTemplate, ValuesOf(s, state, event), |ORDER|))
  {
    hide ParseQueryParams, Chain, ValuesOf, QueryOf;
    var query := Chain(s.queryTemplate, ValuesOf(s, state, event), |ORDER|);
    if QUESTION in s.announceUrl {
      QueryExtended(s.announceUrl, query);
      ParseJoined(QueryOf(s.announceUrl), query);
    } else {
      QueryStarted(s.announceUrl, query);
      NoQuery(s.announceUrl);
      EmptyQuery(query);
    }
  }

  lemma {:induction false} EmptyQuery(query: bytes)
    ensures ParseQueryParams([]) + ParseQueryParams(query) == ParseQueryParams(query)
  {
  }
}
