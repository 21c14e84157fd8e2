/**
 Exactly which templates the nine replaces treat as one substitution: where no
 value can complete a placeholder. The other half is counted in `{`s: a completed
 placeholder loses a stray `{` that a single pass keeps.
 */
module TemplateLaws {
  import opened Wrappers
  import opened Bytes
  import opened Announce
  import opened AnnounceLaws

  /** One for a `{` in front that starts no placeholder of `on`. */
  function Stray(s: bytes, on: set<Placeholder>): nat {
    if s != [] && s[0] == OPEN && !(Leading(s).Some? && Leading(s).value in on) then 1 else 0
  }

  /** The `{`s that start no placeholder of `on`. */
  function Strays(s: bytes, on: set<Placeholder>): nat {
    if s == [] then 0 else Stray(s, on) + Strays(s[1..], on)
  }

  lemma {:induction false} StraysPlain(text: bytes, rest: bytes, on: set<Placeholder>)
    requires OPEN !in text
    ensures Strays(text + rest, on) == Strays(rest, on)
  {
    hide Leading;
    if text == [] {
      assert [] + rest == rest;
    } else {
      var s := text + rest;
      assert s[0] == text[0] && text[0] in text && s[1..] == text[1..] + rest;
      StraysPlain(text[1..], rest, on);
    }
  }

  lemma {:induction false} StraysName(p: Placeholder, rest: bytes, on: set<Placeholder>)
    requires p in on
    ensures Strays(Name(p) + rest, on) == Strays(rest, on)
  {
    hide Name, Leading;
    NameShape(p);
    LeadingIs(rest, p);
    var s, tail := Name(p) + rest, Name(p)[1..];
    assert s[1..] == tail + rest;
    StraysPlain(tail, rest, on);
  }

  /** A character that `replace` copies is no more of a stray than before. */
  lemma {:induction false} CopiedHead(s: bytes, p: Placeholder, value: bytes, on: set<Placeholder>)
    requires s != [] && Name(p) != [] && !StartsWith(s, Name(p))
    ensures var r := Replace(s, Name(p), value);
            r != [] && r[1..] == Replace(s[1..], Name(p), value) && Stray(r, on - {p}) <= Stray(s, on)
  {
    hide Name, Leading;
    var r := Replace(s, Name(p), value);
    if Leading(s).Some? {
      var q := Leading(s).value;
      var rest := s[|Name(q)|..];
      assert s == Name(q) + rest;
      ReplaceOtherName(rest, q, p, value);
      LeadingIs(Replace(rest, Name(p), value), q);
    }
  }

  /** Replacing leaves no more strays than there were. */
  lemma {:induction false} StraysNeverRise(s: bytes, p: Placeholder, value: bytes, on: set<Placeholder>)
    requires p in on && OPEN !in value && Name(p) != []
    ensures Strays(Replace(s, Name(p), value), on - {p}) <= Strays(s, on)
    decreases |s|
  {
    hide Name, Leading, Stray;
    if s != [] {
      if StartsWith(s, Name(p)) {
        var rest := s[|Name(p)|..];
        assert s == Name(p) + rest;
        ReplaceName(rest, p, value);
        StraysPlain(value, Replace(rest, Name(p), value), on - {p});
        StraysName(p, rest, on);
        StraysNeverRise(rest, p, value, on);
      } else {
        CopiedHead(s, p, value, on);
        StraysNeverRise(s[1..], p, value, on);
      }
    }
  }

  // ---------- A completed placeholder ----------

  lemma {:induction false} SpliceValue(s: bytes, p: Placeholder, q: Placeholder, k: nat)
    requires Splices(s, p, q, k)
    ensures 1 + k < |Name(q)| && OPEN !in Name(q)[1 + k..] && Place(p) < Place(q)
  {
    hide Name;
    NameShape(q);
  }

  /** A splice taken apart. */
  lemma {:induction false} SpliceParts(s: bytes, p: Placeholder, q: Placeholder, k: nat) returns (text: bytes, rest: bytes)
    requires Splices(s, p, q, k)
    ensures 1 + k < |Name(q)| && text == Name(q)[1..1 + k] && OPEN !in text && s == [OPEN] + (text + (Name(p) + rest))
    ensures s[1..] == text + (Name(p) + rest)
    ensures [OPEN] + (text + Name(q)[1 + k..]) == Name(q) && OPEN !in Name(q)[1 + k..]
    ensures Leading(s) == None
  {
    hide Name, Leading;
    NameShape(q);
    text := s[1..1 + k];
    var tail := s[1 + k..];
    rest := tail[|Name(p)|..];
    assert tail == Name(p) + rest && s[1..] == text + tail;
    assert Name(q) == [Name(q)[0]] + (Name(q)[1..1 + k] + Name(q)[1 + k..]);
    forall r ensures !StartsWith(s, Name(r)) {
      if StartsWith(s, Name(r)) { LeadingDoesNotSplice(s, r, p, q, k); }
    }
  }

  /** Replacing `p` by what `q` lacks turns the splice into `q`: one stray less. */
  lemma {:induction false} SplicedHead(s: bytes, p: Placeholder, q: Placeholder, k: nat, on: set<Placeholder>)
    requires Splices(s, p, q, k) && p in on && q in on && Name(p) != []
    ensures 1 + k < |Name(q)| && Strays(Replace(s, Name(p), Name(q)[1 + k..]), on - {p}) < Strays(s, on)
  {
    hide Name, Leading, Splices;
    SpliceValue(s, p, q, k);
    var value := Name(q)[1 + k..];
    var text, rest := SpliceParts(s, p, q, k);
    var done := Replace(rest, Name(p), value);
    ReplacePlain(text, Name(p) + rest, p, value);
    ReplaceName(rest, p, value);
    assert [OPEN] + (text + (value + done)) == [OPEN] + (text + value) + done;
    StraysName(q, done, on - {p});
    StraysNeverRise(rest, p, value, on);
    StraysPlain(text, Name(p) + rest, on);
    StraysName(p, rest, on);
  }

  /** Where a splice stands, the name being replaced either ends before it or
      starts after. */
  lemma {:induction false} EndsBefore(s: bytes, i: nat, r: Placeholder, p: Placeholder, q: Placeholder, k: nat)
    requires 0 < i <= |s| && Splices(s[i..], p, q, k) && StartsWith(s, Name(r))
    ensures |Name(r)| <= i
  {
    hide Name;
    NameShape(r);
    if i < |Name(r)| { StartsWithAt(s, Name(r), i); }
  }

  lemma {:induction false} SpliceLosesOne(s: bytes, i: nat, p: Placeholder, q: Placeholder, k: nat, on: set<Placeholder>)
    requires i <= |s| && Splices(s[i..], p, q, k) && p in on && q in on && Name(p) != []
    ensures 1 + k < |Name(q)| && Strays(Replace(s, Name(p), Name(q)[1 + k..]), on - {p}) < Strays(s, on)
    decreases |s|
  {
    hide Name, Leading, Stray, Splices;
    SpliceValue(s[i..], p, q, k);
    var value := Name(q)[1 + k..];
    if i == 0 {
      assert s[0..] == s;
      SplicedHead(s, p, q, k, on);
    } else if StartsWith(s, Name(p)) {
      var n := |Name(p)|;
      EndsBefore(s, i, p, p, q, k);
      var rest := s[n..];
      assert s == Name(p) + rest && s[i..] == rest[i - n..];
      ReplaceName(rest, p, value);
      StraysPlain(value, Replace(rest, Name(p), value), on - {p});
      StraysName(p, rest, on);
      SpliceLosesOne(rest, i - n, p, q, k, on);
    } else {
      CopiedHead(s, p, value, on);
      assert s[i..] == s[1..][i - 1..];
      SpliceLosesOne(s[1..], i - 1, p, q, k, on);
    }
  }

  /** A splice is still there after another placeholder is replaced. */
  lemma {:induction false} SpliceSurvives(
    s: bytes, i: nat, p: Placeholder, q: Placeholder, k: nat, r: Placeholder, value: bytes) returns (j: nat)
    requires i <= |s| && Splices(s[i..], p, q, k) && r != p && Name(r) != []
    ensures var t := Replace(s, Name(r), value); j <= |t| && Splices(t[j..], p, q, k)
    decreases |s|
  {
    hide Name, Leading, Splices;
    var t := Replace(s, Name(r), value);
    if i == 0 {
      assert s[0..] == s;
      j := 0;
      SpliceStays(s, p, q, k, r, value);
      assert t[0..] == t;
    } else if StartsWith(s, Name(r)) {
      var n := |Name(r)|;
      EndsBefore(s, i, r, p, q, k);
      var rest := s[n..];
      assert s == Name(r) + rest && s[i..] == rest[i - n..];
      ReplaceName(rest, r, value);
      j := SpliceSurvives(rest, i - n, p, q, k, r, value);
      assert t[|value| + j..] == Replace(rest, Name(r), value)[j..];
      j := |value| + j;
    } else {
      SpliceNotEmpty(s, i, p, q, k);
      assert s[i..] == s[1..][i - 1..];
      j := SpliceSurvives(s[1..], i - 1, p, q, k, r, value);
      assert t[1 + j..] == Replace(s[1..], Name(r), value)[j..];
      j := 1 + j;
    }
  }

  lemma {:induction false} SpliceNotEmpty(s: bytes, i: nat, p: Placeholder, q: Placeholder, k: nat)
    requires i <= |s| && Splices(s[i..], p, q, k)
    ensures i < |s|
  {
    hide Name;
  }

  lemma {:induction false} SpliceStays(s: bytes, p: Placeholder, q: Placeholder, k: nat, r: Placeholder, value: bytes)
    requires Splices(s, p, q, k) && r != p && Name(r) != []
    ensures Splices(Replace(s, Name(r), value), p, q, k)
  {
    hide Name, Leading;
    var text, rest := SpliceParts(s, p, q, k);
    ReplacePlain(text, Name(p) + rest, r, value);
    ReplaceOtherName(rest, p, r, value);
    var t, done := Replace(s, Name(r), value), Replace(rest, Name(r), value);
    assert t == [OPEN] + (text + (Name(p) + done));
    assert t[1..1 + k] == text && t[1 + k..] == Name(p) + done;
    assert (Name(p) + done)[..|Name(p)|] == Name(p);
  }

  // ---------- The chain ----------

  /** The placeholders the chain has still to replace after `n` steps. */
  function Rest(n: nat): set<Placeholder> {
    set p | p in ALL && Place(p) >= n
  }

  lemma {:induction false} RestStep(n: nat)
    requires n < |ORDER|
    ensures ORDER[n] in Rest(n) && Rest(n + 1) == Rest(n) - {ORDER[n]}
  {
    Positions(n);
    forall p ensures p in ALL && (Place(p) == n ==> p == ORDER[n]) { assert ORDER[Place(p)] == p; }
  }

  /** The value of `p` that completes `q`; every other placeholder is empty. */
  function Completing(p: Placeholder, q: Placeholder, k: nat): Values
    requires 1 + k < |Name(q)|
  {
    r => if r == p then Name(q)[1 + k..] else []
  }

  lemma {:induction false} ChainLosesOne(s: bytes, i: nat, p: Placeholder, q: Placeholder, k: nat, n: nat) returns (j: nat)
    requires i <= |s| && Splices(s[i..], p, q, k) && n <= |ORDER| && Name(p) != []
    ensures 1 + k < |Name(q)| && OPEN !in Name(q)[1 + k..]
    ensures var t := Chain(s, Completing(p, q, k), n);
            if n <= Place(p) then j <= |t| && Splices(t[j..], p, q, k) && Strays(t, Rest(n)) <= Strays(s, ALL)
            else Strays(t, Rest(n)) < Strays(s, ALL)
    decreases n
  {
    hide Name, Replace, Splices, Strays;
    SpliceValue(s[i..], p, q, k);
    var values := Completing(p, q, k);
    if n == 0 {
      assert Rest(0) == ALL;
      j := i;
    } else {
      var r := ORDER[n - 1];
      j := ChainLosesOne(s, i, p, q, k, n - 1);
      RestStep(n - 1);
      Positions(n - 1);
      NameShape(r);
      var t := Chain(s, values, n - 1);
      assert OPEN !in values(r);
      StraysNeverRise(t, r, values(r), Rest(n - 1));
      if n - 1 < Place(p) {
        j := SpliceSurvives(t, j, p, q, k, r, values(r));
      } else if n - 1 == Place(p) {
        Positions(Place(p));
        SamePlace(p, r);
        InAll(q);
        SpliceLosesOne(t, j, p, q, k, Rest(n - 1));
      }
    }
  }

  lemma {:induction false} SamePlace(p: Placeholder, q: Placeholder)
    requires Place(p) == Place(q)
    ensures p == q
  {
  }

  lemma {:induction false} InAll(p: Placeholder)
    ensures p in ALL && Place(p) < |ORDER|
  {
  }

  /** A single pass keeps every stray `{` and adds none. */
  lemma {:induction false} SubstituteKeepsStrays(s: bytes, values: Values)
    requires Braceless(values, ALL)
    ensures Strays(Substitute(s, values, ALL), {}) == Strays(s, ALL)
    decreases |s|
  {
    hide Name, Leading;
    if s != [] {
      match Leading(s) {
        case None =>
          SubstituteKeepsStrays(s[1..], values);
          var x := Substitute(s[1..], values, ALL);
          assert ([s[0]] + x)[1..] == x;
        case Some(p) =>
          NameShape(p);
          InAll(p);
          var rest := s[|Name(p)|..];
          assert s == Name(p) + rest;
          SubstituteKeepsStrays(rest, values);
          StraysPlain(values(p), Substitute(rest, values, ALL), {});
          StraysName(p, rest, ALL);
      }
    }
  }

  /** A splice in the template: some values without `{` tell the two apart. */
  lemma {:induction false} SpliceShows(template: bytes, i: nat, p: Placeholder, q: Placeholder, k: nat) returns (values: Values)
    requires i <= |template| && Splices(template[i..], p, q, k)
    ensures Braceless(values, ALL)
    ensures Chain(template, values, |ORDER|) != Substitute(template, values, ALL)
  {
    hide Name, Splices, Strays, Chain, Substitute;
    NameShape(p);
    SpliceValue(template[i..], p, q, k);
    values := Completing(p, q, k);
    var _ := ChainLosesOne(template, i, p, q, k, |ORDER|);
    InAll(p);
    assert Rest(|ORDER|) == {} by { forall r ensures Place(r) < |ORDER| { InAll(r); } }
    SubstituteKeepsStrays(template, values);
  }

  /** The nine replaces are one simultaneous substitution, for all values without
      `{`, exactly when nowhere in the template a value can complete a
      placeholder that is replaced later. */
  lemma {:induction false} SimultaneousIff(template: bytes)
    ensures SpliceFree(template)
            <==> forall values: Values | Braceless(values, ALL) ::
                   Chain(template, values, |ORDER|) == Substitute(template, values, ALL)
  {
    hide Splices, Chain, Substitute, Braceless;
    if SpliceFree(template) {
      forall values: Values | Braceless(values, ALL)
        ensures Chain(template, values, |ORDER|) == Substitute(template, values, ALL)
      {
        ChainIsSimultaneous(template, values);
      }
    } else {
      var i, p, q, k :| 0 <= i <= |template| && Splices(template[i..], p, q, k);
      var values := SpliceShows(template, i, p, q, k);
    }
  }
}
