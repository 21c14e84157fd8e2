/** The chain of replaces is one simultaneous substitution. */
module AnnounceLaws {
  import opened Wrappers
  import opened Bytes
  import opened Announce

  lemma {:induction false} NameInjective(p: Placeholder, q: Placeholder)
    requires |Name(p)| == |Name(q)| && Name(p)[1] == Name(q)[1]
    ensures p == q
  {
  }

  lemma {:induction false} StartsWithAt(s: bytes, pattern: bytes, i: nat)
    requires i < |pattern|
    ensures StartsWith(s, pattern) ==> i < |s| && s[i] == pattern[i]
  {
    if StartsWith(s, pattern) { assert s[..|pattern|][i] == s[i]; }
  }

  /** At most one placeholder stands at a place. */
  lemma {:induction false} LeadingUnique(s: bytes, p: Placeholder, q: Placeholder)
    requires StartsWith(s, Name(p)) && StartsWith(s, Name(q))
    ensures p == q
  {
    hide Name;
    NameShape(p);
    NameShape(q);
    var m, n := |Name(p)|, |Name(q)|;
    StartsWithAt(s, Name(p), m - 1);
    StartsWithAt(s, Name(q), n - 1);
    StartsWithAt(s, Name(q), if m < n then m - 1 else 1);
    StartsWithAt(s, Name(p), if n < m then n - 1 else 1);
    NameInjective(p, q);
  }

  lemma {:induction false} LeadingIs(s: bytes, p: Placeholder)
    ensures Leading(Name(p) + s) == Some(p)
  {
    hide Name;
    assert StartsWith(Name(p) + s, Name(p));
    LeadingUnique(Name(p) + s, p, Leading(Name(p) + s).value);
  }

  lemma {:induction false} NoneLeads(s: bytes)
    requires s != [] && s[0] != OPEN
    ensures Leading(s) == None
  {
    hide Name;
    if Leading(s).Some? {
      NameShape(Leading(s).value);
      StartsWithAt(s, Name(Leading(s).value), 0);
    }
  }

  /** Text without `{` is passed over. */
  lemma {:induction false} ReplacePlain(text: bytes, rest: bytes, p: Placeholder, value: bytes)
    requires OPEN !in text && Name(p) != []
    ensures Replace(text + rest, Name(p), value) == text + Replace(rest, Name(p), value)
  {
    hide Name;
    if text == [] {
      assert [] + rest == rest;
    } else {
      NameShape(p);
      var s := text + rest;
      assert s[0] == text[0] && text[0] in text && s[1..] == text[1..] + rest;
      StartsWithAt(s, Name(p), 0);
      ReplacePlain(text[1..], rest, p, value);
      assert text == [text[0]] + text[1..];
    }
  }

  lemma {:induction false} ReplaceName(rest: bytes, p: Placeholder, value: bytes)
    requires Name(p) != []
    ensures Replace(Name(p) + rest, Name(p), value) == value + Replace(rest, Name(p), value)
  {
    hide Name;
    var s := Name(p) + rest;
    assert s[..|Name(p)|] == Name(p) && s[|Name(p)|..] == rest;
  }

  lemma {:induction false} ReplaceOtherName(rest: bytes, q: Placeholder, p: Placeholder, value: bytes)
    requires p != q && Name(p) != []
    ensures Replace(Name(q) + rest, Name(p), value) == Name(q) + Replace(rest, Name(p), value)
  {
    hide Name;
    NameShape(q);
    var s, tail := Name(q) + rest, Name(q)[1..];
    assert StartsWith(s, Name(q));
    if StartsWith(s, Name(p)) {
      LeadingUnique(s, p, q);
    }
    assert s[1..] == tail + rest && Name(q) == [s[0]] + tail;
    ReplacePlain(tail, rest, p, value);
  }

  ghost predicate Braceless(values: Values, on: set<Placeholder>) {
    forall p | p in on :: OPEN !in values(p)
  }

  /** `s` opens with a `{` that starts no placeholder of its own: after `k` further
      characters of the name of `q` stands the name of `p`, replaced before `q`, so
      that a value of `p` can complete a new `q`. */
  ghost predicate Splices(s: bytes, p: Placeholder, q: Placeholder, k: nat) {
    && 1 + k <= |s| && 1 + k < |Name(q)| && s[0] == OPEN && s[1..1 + k] == Name(q)[1..1 + k]
    && StartsWith(s[1 + k..], Name(p)) && Place(p) < Place(q)
  }

  /** No place of the template lets a value complete a placeholder. */
  ghost predicate SpliceFree(s: bytes) {
    forall i, p, q, k | 0 <= i <= |s| :: !Splices(s[i..], p, q, k)
  }

  lemma {:induction false} SpliceFreeFrom(s: bytes, n: nat)
    requires SpliceFree(s) && n <= |s|
    ensures SpliceFree(s[n..])
  {
    hide Splices;
    forall i, p, q, k | 0 <= i <= |s[n..]| ensures !Splices(s[n..][i..], p, q, k) {
      assert s[n..][i..] == s[n + i..];
    }
  }

  /** After a stray `{` the substituted text does not go on to spell `p`. */
  lemma {:induction false} NoFalseStart(s: bytes, values: Values, on: set<Placeholder>, p: Placeholder, k: nat)
    requires 1 + k <= |s| && 1 + k < |Name(p)| && s[0] == OPEN && s[1..1 + k] == Name(p)[1..1 + k]
    requires Leading(s) == None && (forall r, j :: !Splices(s, r, p, j))
    requires forall r | r in on :: Place(r) < Place(p)
    ensures !StartsWith(Substitute(s[1 + k..], values, on), Name(p)[1 + k..])
    decreases |s| - k
  {
    hide Name, Leading, Splices, Substitute;
    NameShape(p);
    var t, wanted := s[1 + k..], Name(p)[1 + k..];
    var x := Substitute(t, values, on);
    assert wanted[0] == Name(p)[1 + k] != OPEN;
    SubstituteHead(t, values, on);
    if t == [] {
    } else if Leading(t).Some? {
      NotReplaced(s, on, p, k);
      StartsWithAt(x, wanted, 0);
    } else {
      assert t[0] == s[1 + k] && t[1..] == s[2 + k..] && wanted[1..] == Name(p)[2 + k..];
      SpellsOn(x, wanted);
      OneMore(s, Name(p), k);
      if t[0] == wanted[0] && 2 + k < |Name(p)| { NoFalseStart(s, values, on, p, k + 1); }
    }
  }

  /** How the substituted text starts. */
  lemma {:induction false} SubstituteHead(s: bytes, values: Values, on: set<Placeholder>)
    ensures var x := Substitute(s, values, on);
            if s == [] then x == []
            else if Leading(s).None? then x != [] && x[0] == s[0] && x[1..] == Substitute(s[1..], values, on)
            else Leading(s).value !in on ==> x != [] && x[0] == OPEN
  {
    hide Name, Leading;
    if s != [] && Leading(s).Some? { NameShape(Leading(s).value); }
  }

  /** A placeholder that stands where `p` breaks off is replaced after `p`. */
  lemma {:induction false} NotReplaced(s: bytes, on: set<Placeholder>, p: Placeholder, k: nat)
    requires 1 + k <= |s| && 1 + k < |Name(p)| && s[0] == OPEN && s[1..1 + k] == Name(p)[1..1 + k]
    requires (forall r, j :: !Splices(s, r, p, j)) && forall r | r in on :: Place(r) < Place(p)
    requires Leading(s[1 + k..]).Some?
    ensures Leading(s[1 + k..]).value !in on
  {
    hide Name, Leading;
    assert !Splices(s, Leading(s[1 + k..]).value, p, k);
  }

  /** Texts that agree through `k` agree one further, perhaps to the end of `t`. */
  lemma {:induction false} OneMore(s: bytes, t: bytes, k: nat)
    requires 1 + k < |s| && 1 + k < |t| && s[0] == t[0] && s[1..1 + k] == t[1..1 + k]
    ensures s[1 + k] == t[1 + k] ==> s[1..1 + (k + 1)] == t[1..1 + (k + 1)]
    ensures s[1 + k] == t[1 + k] && 2 + k == |t| ==> StartsWith(s, t)
  {
    assert s[1..2 + k] == s[1..1 + k] + [s[1 + k]] && t[1..2 + k] == t[1..1 + k] + [t[1 + k]];
    assert s[..2 + k] == [s[0]] + s[1..2 + k] && t[..2 + k] == [t[0]] + t[1..2 + k];
  }

  lemma {:induction false} Agree(s: bytes, t: bytes, k: nat, j: nat)
    ensures 1 <= j < 1 + k && 1 + k <= |s| && 1 + k <= |t| && s[1..1 + k] == t[1..1 + k] ==> s[j] == t[j]
  {
    if 1 <= j < 1 + k && 1 + k <= |s| && 1 + k <= |t| && s[1..1 + k] == t[1..1 + k] {
      assert s[j] == s[1..1 + k][j - 1] && t[j] == t[1..1 + k][j - 1];
    }
  }

  lemma {:induction false} SpellsOn(x: bytes, wanted: bytes)
    requires x != [] && wanted != []
    ensures StartsWith(x, wanted) <==> x[0] == wanted[0] && StartsWith(x[1..], wanted[1..])
  {
    if x[0] == wanted[0] && StartsWith(x[1..], wanted[1..]) {
      assert x[..|wanted|] == [x[0]] + x[1..][..|wanted| - 1] && wanted == [wanted[0]] + wanted[1..];
    }
    if StartsWith(x, wanted) { assert x[1..][..|wanted| - 1] == x[..|wanted|][1..]; }
  }

  /** A stray `{` stays in front of what `replace` makes of the rest. */
  lemma {:induction false} ReplaceStray(s: bytes, values: Values, on: set<Placeholder>, p: Placeholder)
    requires s != [] && s[0] == OPEN && Leading(s) == None && SpliceFree(s) && Name(p) != []
    requires forall r | r in on :: Place(r) < Place(p)
    ensures var x := Substitute(s[1..], values, on);
            Replace([OPEN] + x, Name(p), values(p)) == [OPEN] + Replace(x, Name(p), values(p))
  {
    hide Name, Leading, Splices;
    NameShape(p);
    var x := Substitute(s[1..], values, on);
    assert s[0..] == s && s[1..1] == Name(p)[1..1];
    NoFalseStart(s, values, on, p, 0);
    var y := [OPEN] + x;
    SpellsOn(y, Name(p));
    assert y[1..] == x;
  }

  /** One more `replace` is one more placeholder substituted in the same pass. */
  lemma {:induction false} ReplaceExtends(s: bytes, values: Values, on: set<Placeholder>, p: Placeholder)
    requires SpliceFree(s) && Braceless(values, on) && Name(p) != []
    requires forall r | r in on :: Place(r) < Place(p)
    ensures Replace(Substitute(s, values, on), Name(p), values(p)) == Substitute(s, values, on + {p})
    decreases |s|
  {
    hide Name, Leading, SpliceFree;
    if s != [] {
      match Leading(s) {
        case None =>
          SpliceFreeFrom(s, 1);
          ReplaceExtends(s[1..], values, on, p);
          if s[0] == OPEN {
            ReplaceStray(s, values, on, p);
          } else {
            ReplacePlain([s[0]], Substitute(s[1..], values, on), p, values(p));
          }
        case Some(q) =>
          NameShape(q);
          var rest := s[|Name(q)|..];
          SpliceFreeFrom(s, |Name(q)|);
          ReplaceExtends(rest, values, on, p);
          var done := Substitute(rest, values, on);
          if q == p {
            ReplaceName(done, p, values(p));
          } else if q in on {
            ReplacePlain(values(q), done, p, values(p));
          } else {
            ReplaceOtherName(done, q, p, values(p));
          }
      }
    }
  }

  lemma {:induction false} SubstituteNothing(s: bytes, values: Values)
    ensures Substitute(s, values, {}) == s
    decreases |s|
  {
    hide Name, Leading;
    if s != [] {
      match Leading(s)
      case None =>
        SubstituteNothing(s[1..], values);
        assert s == [s[0]] + s[1..];
      case Some(p) =>
        NameShape(p);
        SubstituteNothing(s[|Name(p)|..], values);
        assert s == s[..|Name(p)|] + s[|Name(p)|..];
    }
  }

  /** The first `n` placeholders of the chain. */
  function UpTo(n: nat): set<Placeholder>
    requires n <= |ORDER|
  {
    set p | p in ORDER[..n]
  }

  lemma {:induction false} OrderDistinct(n: nat)
    requires n < |ORDER|
    ensures ORDER[n] !in UpTo(n) && UpTo(n + 1) == UpTo(n) + {ORDER[n]}
  {
    assert ORDER[..n + 1] == ORDER[..n] + [ORDER[n]];
    if ORDER[n] in ORDER[..n] {
      var i :| 0 <= i < n && ORDER[i] == ORDER[n];
      Positions(i);
      Positions(n);
    }
  }

  /** Where each placeholder stands in the chain. */
  function Place(p: Placeholder): nat {
    match p
    case InfoHash => 0
    case PeerId => 1
    case Port => 2
    case Uploaded => 3
    case Downloaded => 4
    case Left => 5
    case Key => 6
    case Event => 7
    case Numwant => 8
  }

  lemma {:induction false} Positions(n: nat)
    requires n < |ORDER|
    ensures Place(ORDER[n]) == n
  {
  }

  lemma {:induction false} AllPlaceholders()
    ensures UpTo(|ORDER|) == ALL
  {
    assert ORDER[..|ORDER|] == ORDER;
    forall p ensures p in ORDER && p in ALL {
      assert ORDER[Place(p)] == p;
    }
  }

  lemma {:induction false} ChainPrefix(template: bytes, values: Values, n: nat)
    requires n <= |ORDER| && SpliceFree(template) && Braceless(values, ALL)
    ensures Chain(template, values, n) == Substitute(template, values, UpTo(n)) && UpTo(n) <= ALL
  {
    hide Name, Substitute, Replace, SpliceFree;
    if n == 0 {
      assert UpTo(0) == {};
      SubstituteNothing(template, values);
    } else {
      var p := ORDER[n - 1];
      ChainPrefix(template, values, n - 1);
      OrderDistinct(n - 1);
      NameShape(p);
      BeforeInOrder(n - 1);
      ReplaceExtends(template, values, UpTo(n - 1), p);
    }
  }

  lemma {:induction false} BeforeInOrder(n: nat)
    requires n < |ORDER|
    ensures forall r | r in UpTo(n) :: Place(r) < Place(ORDER[n])
  {
    Positions(n);
    forall r | r in UpTo(n) ensures Place(r) < n {
      var i :| 0 <= i < n && ORDER[i] == r;
      Positions(i);
    }
  }

  /** For every template in which no value can complete a placeholder, and values
      without `{`, the nine replaces are one simultaneous left-to-right
      substitution; an event value may be empty. */
  lemma {:induction false} ChainIsSimultaneous(template: bytes, values: Values)
    requires SpliceFree(template) && Braceless(values, ALL)
    ensures Chain(template, values, |ORDER|) == Substitute(template, values, ALL)
  {
    hide Chain, Substitute, UpTo, SpliceFree;
    ChainPrefix(template, values, |ORDER|);
    AllPlaceholders();
  }

  /** A `{` that starts a placeholder cannot be completed into another. */
  lemma {:induction false} LeadingDoesNotSplice(s: bytes, r: Placeholder, p: Placeholder, q: Placeholder, k: nat)
    requires StartsWith(s, Name(r))
    ensures !Splices(s, p, q, k)
  {
    hide Name;
    NameShape(r);
    NameShape(p);
    NameShape(q);
    var n := |Name(r)|;
    StartsWithAt(s, Name(r), if 1 + k < n then 1 + k else n - 1);
    Agree(s, Name(q), k, n - 1);
    if 1 + k <= |s| { StartsWithAt(s[1 + k..], Name(p), 0); }
  }

  /** In particular when every `{` opens a placeholder. */
  lemma {:induction false} WellBracedIsSafe(s: bytes)
    requires WellBraced(s)
    ensures SpliceFree(s)
    decreases |s|
  {
    hide Name, Leading, Splices;
    forall i, p, q, k | 0 <= i <= |s| ensures !Splices(s[i..], p, q, k) {
      NoSpliceAt(s, i, p, q, k);
    }
  }

  lemma {:induction false} NoSpliceAt(s: bytes, i: nat, p: Placeholder, q: Placeholder, k: nat)
    requires WellBraced(s) && i <= |s|
    ensures !Splices(s[i..], p, q, k)
    decreases |s|
  {
    hide Name, Leading;
    if s == [] {
    } else if s[0] != OPEN {
      if i > 0 { assert s[i..] == s[1..][i - 1..]; NoSpliceAt(s[1..], i - 1, p, q, k); }
    } else {
      var r := Leading(s).value;
      NameShape(r);
      var n := |Name(r)|;
      if i == 0 {
        assert s[0..] == s;
        LeadingDoesNotSplice(s, r, p, q, k);
      } else if i < n {
        StartsWithAt(s, Name(r), i);
      } else {
        assert s[i..] == s[n..][i - n..];
        NoSpliceAt(s[n..], i - n, p, q, k);
      }
    }
  }

  // ---------- Why the braces matter ----------

  const STRAY: bytes := [OPEN] + (Ascii("num") + (Name(Event) + Ascii("want}")))

  lemma {:induction false} StrayReplace(p: Placeholder, value: bytes)
    requires Name(p) != []
    ensures Replace(STRAY, Name(p), value)
            == if p == Event then [OPEN] + (Ascii("num") + (value + Ascii("want}"))) else STRAY
  {
    hide Name;
    NameShape(p);
    NameShape(Event);
    var num, want := Ascii("num"), Ascii("want}");
    assert STRAY[4] == Name(Event)[0];
    StartsWithAt(STRAY, Name(p), 4);
    assert STRAY[1..] == num + (Name(Event) + want);
    ReplacePlain(num, Name(Event) + want, p, value);
    ReplacePlain(want, [], p, value);
    assert want + [] == want;
    if p == Event { ReplaceName(want, p, value); } else { ReplaceOtherName(want, Event, p, value); }
  }

  /** With a stray `{` an empty event can splice a new placeholder together,
      which the chain then replaces and a single pass does not. */
  lemma {:induction false} StrayBraceDiffers(values: Values)
    requires values(Event) == [] && values(Numwant) != Name(Numwant)
    ensures !WellBraced(STRAY) && Chain(STRAY, values, |ORDER|) != Substitute(STRAY, values, ALL)
  {
    hide Name, Replace;
    forall p ensures Name(p) != [] { NameShape(p); }
    forall p | p != Event ensures Replace(STRAY, Name(p), values(p)) == STRAY { StrayReplace(p, values(p)); }
    StrayReplace(Event, []);
    var spliced := [OPEN] + (Ascii("num") + ([] + Ascii("want}")));
    assert spliced == Name(Numwant) by { SplicedName(); }
    ChainSteps(values, spliced);
    ReplaceName([], Numwant, values(Numwant));
    assert Name(Numwant) + [] == Name(Numwant);
    assert Replace([], Name(Numwant), values(Numwant)) == [] && values(Numwant) + [] == values(Numwant) by {
      ReplaceNothing(Numwant, values(Numwant));
    }
    StraySubstitute(values);
  }

  lemma {:induction false} ReplaceNothing(p: Placeholder, value: bytes)
    requires Name(p) != []
    ensures Replace([], Name(p), value) == []
  {
  }

  lemma {:induction false} SplicedName()
    ensures [OPEN] + (Ascii("num") + ([] + Ascii("want}"))) == Name(Numwant)
  {
  }

  lemma {:induction false} ChainSteps(values: Values, spliced: bytes)
    requires forall p :: Name(p) != []
    requires forall p | p != Event :: Replace(STRAY, Name(p), values(p)) == STRAY
    requires Replace(STRAY, Name(Event), values(Event)) == spliced
    ensures Chain(STRAY, values, |ORDER|) == Replace(spliced, Name(Numwant), values(Numwant))
  {
    hide Name, Replace;
    assert Chain(STRAY, values, 1) == STRAY;
    assert Chain(STRAY, values, 2) == STRAY;
    assert Chain(STRAY, values, 3) == STRAY;
    assert Chain(STRAY, values, 4) == STRAY;
    assert Chain(STRAY, values, 5) == STRAY;
    assert Chain(STRAY, values, 6) == STRAY;
    assert Chain(STRAY, values, 7) == STRAY;
    assert Chain(STRAY, values, 8) == spliced;
  }

  lemma {:induction false} BracedPlain(text: bytes, rest: bytes)
    requires OPEN !in text
    ensures WellBraced(text + rest) == WellBraced(rest)
  {
    hide Name, Leading, StartsWith;
    if text == [] {
      assert [] + rest == rest;
    } else {
      var s := text + rest;
      assert s[0] == text[0] && text[0] in text && s[1..] == text[1..] + rest;
      NoneLeads(s);
      BracedPlain(text[1..], rest);
    }
  }

  lemma {:induction false} SubstitutePlain(text: bytes, rest: bytes, values: Values, on: set<Placeholder>)
    requires OPEN !in text
    ensures Substitute(text + rest, values, on) == text + Substitute(rest, values, on)
    ensures WellBraced(text + rest) == WellBraced(rest)
  {
    hide Name, Leading, StartsWith, WellBraced;
    BracedPlain(text, rest);
    if text == [] {
      assert [] + rest == rest;
    } else {
      var s := text + rest;
      assert s[0] == text[0] && text[0] in text && s[1..] == text[1..] + rest;
      NoneLeads(s);
      SubstitutePlain(text[1..], rest, values, on);
      assert text == [text[0]] + text[1..];
    }
  }

  lemma {:induction false} SubstituteName(p: Placeholder, rest: bytes, values: Values)
    ensures Substitute(Name(p) + rest, values, ALL) == values(p) + Substitute(rest, values, ALL)
    ensures WellBraced(Name(p) + rest) == WellBraced(rest)
  {
    hide Name, Leading, StartsWith;
    var s := Name(p) + rest;
    NameShape(p);
    LeadingIs(rest, p);
    assert s[|Name(p)|..] == rest && p in ALL && s[0] == Name(p)[0];
  }

  lemma {:induction false} StrayLeads()
    ensures STRAY[0] == OPEN && Leading(STRAY) == None
  {
    hide Name, StartsWith;
    NameShape(Event);
    assert STRAY[4] == Name(Event)[0];
    if Leading(STRAY).Some? {
      NameShape(Leading(STRAY).value);
      StartsWithAt(STRAY, Name(Leading(STRAY).value), 4);
    }
  }

  lemma {:induction false} StraySubstitute(values: Values)
    requires values(Event) == []
    ensures !WellBraced(STRAY) && Substitute(STRAY, values, ALL) == Name(Numwant)
  {
    hide Name, Leading, StartsWith, Ascii;
    var num, want := Ascii("num"), Ascii("want}");
    var rest := num + (Name(Event) + want);
    StrayLeads();
    assert OPEN !in num && OPEN !in want;
    assert STRAY == [OPEN] + rest && STRAY[1..] == rest;
    assert Substitute(STRAY, values, ALL) == [OPEN] + Substitute(rest, values, ALL);
    SubstitutePlain(num, Name(Event) + want, values, ALL);
    SubstituteName(Event, want, values);
    assert Substitute(want, values, ALL) == want by {
      SubstitutePlain(want, [], values, ALL);
      assert want + [] == want;
    }
    SplicedName();
  }
}
