/** Decimal text: Rust's integer `to_string` and `parse`, and why the first is
    the only minimal spelling the second accepts. */
module Decimal {
  import opened Wrappers
  import opened Bytes

  const ZERO: byte := 48
  const PLUS: byte := 43
  const MINUS: byte := 45

  predicate IsDigit(b: byte) { ZERO <= b <= ZERO + 9 }

  predicate AllDigits(s: bytes) { forall i | 0 <= i < |s| :: IsDigit(s[i]) }

  function NatText(n: nat): (s: bytes) {
    if n < 10 then [ZERO + n] else NatText(n / 10) + [ZERO + n % 10]
  }

  function NatValue(s: bytes): nat
    requires AllDigits(s)
  {
    if s == [] then 0 else 10 * NatValue(s[..|s| - 1]) + (s[|s| - 1] - ZERO)
  }

  function IntText(n: int): bytes {
    if n < 0 then [MINUS] + NatText(-n) else NatText(n)
  }

  /** Rust's `usize::from_str`: an optional `+`, then at least one digit, in range. */
  function ParseUsize(s: bytes): Option<nat> {
    var ds := if |s| > 0 && s[0] == PLUS then s[1..] else s;
    if ds == [] || !AllDigits(ds) || NatValue(ds) > USIZE_MAX then None else Some(NatValue(ds))
  }

  /** Rust's `i64::from_str`: an optional sign, then at least one digit, in range. */
  function ParseI64(s: bytes): Option<i64> {
    var ds := if |s| > 0 && (s[0] == PLUS || s[0] == MINUS) then s[1..] else s;
    if ds == [] || !AllDigits(ds) then None
    else
      var magnitude: int := NatValue(ds);
      var n := if s[0] == MINUS then -magnitude else magnitude;
      if I64_MIN <= n <= I64_MAX then Some(n) else None
  }

  /** BEP 3, "bencoding": no leading zero, no sign, at least one digit. */
  predicate MinimalNat(s: bytes) {
    s != [] && AllDigits(s) && (s[0] == ZERO ==> |s| == 1)
  }

  /** BEP 3, "bencoding": a minimal natural, or `-` and a minimal positive one. */
  predicate MinimalInt(s: bytes) {
    if s != [] && s[0] == MINUS then MinimalNat(s[1..]) && s[1] != ZERO else MinimalNat(s)
  }

  lemma {:induction false} NatTextMinimal(n: nat)
    ensures MinimalNat(NatText(n)) && NatValue(NatText(n)) == n
    ensures n > 0 ==> NatText(n)[0] != ZERO
  {
    var s := NatText(n);
    if n >= 10 {
      NatTextMinimal(n / 10);
      assert s[..|s| - 1] == NatText(n / 10);
    } else {
      assert s[..0] == [];
    }
  }

  lemma {:induction false} MinimalIsNatText(s: bytes)
    requires MinimalNat(s)
    ensures NatText(NatValue(s)) == s
    ensures s[0] != ZERO ==> NatValue(s) > 0
  {
    var init := s[..|s| - 1];
    if |s| == 1 {
      assert NatValue(init) == 0;
    } else {
      MinimalIsNatText(init);
      assert s == init + [s[|s| - 1]];
    }
  }

  /** Printing then parsing an i64 is the identity, and the text is minimal. */
  lemma {:induction false} IntRoundTrip(n: i64)
    ensures ParseI64(IntText(n)) == Some(n) && MinimalInt(IntText(n))
  {
    hide NatValue, NatText;
    var m: int := n;
    if m < 0 {
      NatTextMinimal(-m);
      assert IntText(m)[1..] == NatText(-m);
    } else {
      NatTextMinimal(n);
    }
  }

  /** A minimal text is exactly what printing its value gives. */
  lemma {:induction false} MinimalIntUnique(s: bytes)
    requires MinimalInt(s) && ParseI64(s).Some?
    ensures IntText(ParseI64(s).value) == s
  {
    if s[0] == MINUS {
      MinimalIsNatText(s[1..]);
      assert s == [MINUS] + s[1..];
    } else {
      MinimalIsNatText(s);
    }
  }

  lemma {:induction false} UsizeRoundTrip(n: nat)
    requires n <= USIZE_MAX
    ensures ParseUsize(NatText(n)) == Some(n) && MinimalNat(NatText(n))
  {
    NatTextMinimal(n);
  }

  lemma {:induction false} MinimalUsizeUnique(s: bytes)
    requires MinimalNat(s) && ParseUsize(s).Some?
    ensures NatText(ParseUsize(s).value) == s
  {
    MinimalIsNatText(s);
  }

  /** Printing a number takes no more digits than it was read from. */
  lemma {:induction false} NatTextShort(s: bytes)
    requires s != [] && AllDigits(s)
    ensures |NatText(NatValue(s))| <= |s|
  {
    var init := s[..|s| - 1];
    if |s| == 1 {
      assert NatValue(init) == 0;
    } else {
      NatTextShort(init);
    }
  }

  lemma {:induction false} IntTextShort(s: bytes)
    requires ParseI64(s).Some?
    ensures |IntText(ParseI64(s).value)| <= |s|
  {
    hide NatText, NatValue;
    var digits := if s[0] == PLUS || s[0] == MINUS then s[1..] else s;
    NatTextShort(digits);
    Zero();
  }

  lemma {:induction false} Zero()
    ensures |NatText(0)| == 1
  {
  }

  lemma {:induction false} UsizeTextShort(s: bytes)
    requires ParseUsize(s).Some?
    ensures |NatText(ParseUsize(s).value)| <= |s|
  {
    hide NatText, NatValue;
    NatTextShort(if s[0] == PLUS then s[1..] else s);
  }

  lemma {:induction false} NatTextLength(n: nat)
    ensures 0 < |NatText(n)| <= n + 1
  {
    if n >= 10 { NatTextLength(n / 10); }
  }

  // ---------- Every spelling of a number ----------

  function Zeros(k: nat): (s: bytes)
    ensures |s| == k && forall i | 0 <= i < k :: s[i] == ZERO
  {
    seq(k, _ => ZERO)
  }

  /** `n` after any number of zeros, and after a sign or none. */
  ghost predicate Spells(s: bytes, sign: bytes, n: nat) {
    exists k: nat :: s == sign + (Zeros(k) + NatText(n))
  }

  lemma {:induction false} LeadingZero(s: bytes)
    requires AllDigits(s)
    ensures AllDigits([ZERO] + s) && NatValue([ZERO] + s) == NatValue(s)
  {
    var t := [ZERO] + s;
    if s == [] {
      assert t[..0] == [] && NatValue([]) == 0;
    } else {
      LeadingZero(s[..|s| - 1]);
      assert t[..|t| - 1] == [ZERO] + s[..|s| - 1];
    }
  }

  lemma {:induction false} SpellingValue(k: nat, n: nat)
    ensures var s := Zeros(k) + NatText(n); s != [] && AllDigits(s) && NatValue(s) == n
  {
    hide NatText, NatValue;
    var s := Zeros(k) + NatText(n);
    NatTextMinimal(n);
    if k == 0 {
      assert s == NatText(n);
    } else {
      SpellingValue(k - 1, n);
      LeadingZero(Zeros(k - 1) + NatText(n));
      assert s == [ZERO] + (Zeros(k - 1) + NatText(n));
    }
  }

  lemma {:induction false} DigitsSpell(s: bytes) returns (k: nat)
    requires s != [] && AllDigits(s)
    ensures s == Zeros(k) + NatText(NatValue(s))
  {
    hide NatText, NatValue;
    if |s| > 1 && s[0] == ZERO {
      k := DigitsSpell(s[1..]);
      k := k + 1;
      LeadingZero(s[1..]);
      assert s == [ZERO] + s[1..];
      assert Zeros(k) == [ZERO] + Zeros(k - 1);
    } else {
      k := 0;
      MinimalIsNatText(s);
    }
  }

  /** A text is read as an i64 exactly when it is some number of zeros and the
      number's digits after no sign, `+`, or `-` for its negative. */
  lemma {:induction false} ParsesI64Iff(s: bytes, n: int)
    ensures ParseI64(s) == Some(n)
            <==> && I64_MIN <= n <= I64_MAX
                 && (|| (n >= 0 && (Spells(s, [], n) || Spells(s, [PLUS], n)))
                     || (n <= 0 && Spells(s, [MINUS], -n)))
  {
    hide NatText, NatValue;
    if ParseI64(s) == Some(n) {
      var signed := s[0] == PLUS || s[0] == MINUS;
      var ds := if signed then s[1..] else s;
      var k := DigitsSpell(ds);
      assert s == (if signed then [s[0]] else []) + ds;
      assert ds == s ==> Spells(s, [], NatValue(ds));
    }
    if I64_MIN <= n <= I64_MAX {
      SpelledI64(s, [], n);
      SpelledI64(s, [PLUS], n);
      SpelledI64(s, [MINUS], n);
    }
  }

  lemma {:induction false} SpelledI64(s: bytes, sign: bytes, n: int)
    requires I64_MIN <= n <= I64_MAX
    requires sign == [] || sign == [PLUS] || sign == [MINUS]
    ensures sign != [MINUS] && n >= 0 && Spells(s, sign, n) ==> ParseI64(s) == Some(n)
    ensures sign == [MINUS] && n <= 0 && Spells(s, sign, -n) ==> ParseI64(s) == Some(n)
  {
    hide NatText, NatValue;
    var m := if sign == [MINUS] then -n else n;
    if m >= 0 && Spells(s, sign, m) {
      var k: nat :| s == sign + (Zeros(k) + NatText(m));
      SpellingValue(k, m);
      assert s[|sign|..] == Zeros(k) + NatText(m);
    }
  }

  /** Likewise for a length, without `-`. */
  lemma {:induction false} ParsesUsizeIff(s: bytes, n: nat)
    ensures ParseUsize(s) == Some(n) <==> n <= USIZE_MAX && (Spells(s, [], n) || Spells(s, [PLUS], n))
  {
    hide NatText, NatValue;
    if ParseUsize(s) == Some(n) {
      var ds := if s[0] == PLUS then s[1..] else s;
      var k := DigitsSpell(ds);
      assert s == (if s[0] == PLUS then [PLUS] else []) + ds;
    }
    SpelledUsize(s, [], n);
    SpelledUsize(s, [PLUS], n);
  }

  lemma {:induction false} SpelledUsize(s: bytes, sign: bytes, n: nat)
    requires sign == [] || sign == [PLUS]
    ensures n <= USIZE_MAX && Spells(s, sign, n) ==> ParseUsize(s) == Some(n)
  {
    hide NatText, NatValue;
    if Spells(s, sign, n) {
      var k: nat :| s == sign + (Zeros(k) + NatText(n));
      SpellingValue(k, n);
      assert s[|sign|..] == Zeros(k) + NatText(n);
    }
  }
}
