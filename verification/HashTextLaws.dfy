/** Which texts decode to which info hash: exactly the hex and the base32
    rendering of it, in either case. */
module HashTextLaws {
  import opened Wrappers
  import opened Bytes
  import opened HashText

  /** `decode_info_hash`: the length decides the form. */
  function InfoHashOfText(s: bytes): Option<bytes> {
    if |s| == INFO_HASH_HEX_LEN then (if IsHex(s) then Some(HexBytes(s)) else None)
    else if |s| == INFO_HASH_BASE32_LEN then (if IsBase32(s) then Some(Base32Bytes(s)) else None)
    else None
  }

  method DecodeInfoHash(s: bytes) returns (r: Option<bytes>)
    ensures r == InfoHashOfText(s)
  {
    if |s| == INFO_HASH_HEX_LEN {
      r := HexDecode20(s);
    } else if |s| == INFO_HASH_BASE32_LEN {
      r := DecodeBase32(s);
    } else {
      return None;
    }
  }

  /** Five bytes as eight 5-bit groups, section 6 of RFC 4648. */
  function Group(b: bytes): (r: seq<nat>)
    requires |b| == 5
    ensures |r| == 8 && forall i | 0 <= i < 8 :: r[i] < 32
  {
    [b[0] / 8, b[0] % 8 * 4 + b[1] / 64, b[1] / 2 % 32, b[1] % 2 * 16 + b[2] / 16,
     b[2] % 16 * 2 + b[3] / 128, b[3] / 4 % 32, b[3] % 4 * 8 + b[4] / 32, b[4] % 32]
  }

  function Groups(b: bytes): (r: seq<nat>)
    requires |b| % 5 == 0
    ensures |r| == |b| / 5 * 8 && forall i | 0 <= i < |r| :: r[i] < 32
    decreases |b|
  {
    if b == [] then [] else Groups(b[..|b| - 5]) + Group(b[|b| - 5..])
  }

  /** The base32 text of whole five-byte groups. */
  function Base32Text(b: bytes): (r: bytes)
    requires |b| % 5 == 0
    ensures |r| == |b| / 5 * 8
  {
    var digits := Groups(b);
    seq(|digits|, i requires 0 <= i < |digits| => BASE32_ALPHABET[digits[i]])
  }

  /** `s` spells `text` up to letter case. */
  predicate SpellsUpper(s: bytes, text: bytes) {
    |s| == |text| && forall i | 0 <= i < |s| :: Upper(s[i]) == text[i]
  }

  predicate SpellsLower(s: bytes, text: bytes) {
    |s| == |text| && forall i | 0 <= i < |s| :: Lower(s[i]) == text[i]
  }

  // ---------- Hex ----------

  lemma {:induction false} NibbleSpelling(c: byte, n: nat)
    requires n < 16
    ensures HexNibble(c) == Some(n) <==> Lower(c) == NibbleChar(n)
  {
  }

  lemma {:induction false} HexNibbles(s: bytes, b: bytes, i: nat)
    requires IsHex(s) && HexBytes(s) == b && i < |s|
    ensures HexNibble(s[i]) == Some(Nibble(b, i))
  {
    hide HexNibble;
    var k := i / 2;
    assert b[k] == 16 * HexNibble(s[2 * k]).value + HexNibble(s[2 * k + 1]).value;
    if i % 2 == 0 { assert i == 2 * k; } else { assert i == 2 * k + 1; }
  }

  lemma {:induction false} NibblesHex(s: bytes, b: bytes)
    requires |s| == 2 * |b| && forall i | 0 <= i < |s| :: HexNibble(s[i]) == Some(Nibble(b, i))
    ensures IsHex(s) && HexBytes(s) == b
  {
    hide HexNibble;
    forall k | 0 <= k < |b| ensures HexBytes(s)[k] == b[k] {
      assert HexNibble(s[2 * k]) == Some(Nibble(b, 2 * k)) && HexNibble(s[2 * k + 1]) == Some(Nibble(b, 2 * k + 1));
    }
  }

  /** The texts that decode to `b` as hex are the spellings of its hex text. */
  lemma {:induction false} HexSpellings(s: bytes, b: bytes)
    ensures IsHex(s) && HexBytes(s) == b <==> SpellsLower(s, HexText(b))
  {
    hide HexNibble, Nibble, NibbleChar, Lower;
    if IsHex(s) && HexBytes(s) == b {
      forall i | 0 <= i < |s| ensures Lower(s[i]) == HexText(b)[i] {
        HexNibbles(s, b, i);
        NibbleSpelling(s[i], Nibble(b, i));
      }
    }
    if SpellsLower(s, HexText(b)) {
      forall i | 0 <= i < |s| ensures HexNibble(s[i]) == Some(Nibble(b, i)) {
        NibbleSpelling(s[i], Nibble(b, i));
      }
      NibblesHex(s, b);
    }
  }

  /** The high half of each byte comes first. */
  lemma {:induction false} HexTextShape(b: bytes, i: nat)
    requires i < |b|
    ensures HexText(b)[2 * i] == "0123456789abcdef"[b[i] / 16] as int
    ensures HexText(b)[2 * i + 1] == "0123456789abcdef"[b[i] % 16] as int
  {
  }

  // ---------- Base32 ----------

  lemma {:induction false} Alphabet(d: nat)
    requires d < 32
    ensures BASE32_ALPHABET[d] == if d < 26 then 65 + d else 24 + d
  {
    hide Ascii;
  }

  lemma {:induction false} DigitSpelling(c: byte, d: nat)
    requires d < 32
    ensures Digit32(c) == Some(d) <==> Upper(c) == BASE32_ALPHABET[d]
  {
    hide Position, Upper;
    Alphabet(d);
    var r := Digit32(c);
    if r.Some? { Alphabet(r.value); }
    if Upper(c) == BASE32_ALPHABET[d] {
      assert Upper(c) in BASE32_ALPHABET;
    }
  }

  lemma {:induction false} GroupNumber(b: bytes)
    requires |b| == 5
    ensures Number(32, Group(b)) == Number(256, b)
  {
    hide Number;
    EightDigits(Group(b));
    FiveBytes(b);
    SameForty(b[0], b[1], b[2], b[3], b[4]);
  }

  /** Forty bits in groups of five and in groups of eight. */
  lemma {:induction false} SameForty(a0: byte, a1: byte, a2: byte, a3: byte, a4: byte)
    ensures ((((((a0 / 8 * 32 + (a0 % 8 * 4 + a1 / 64)) * 32 + a1 / 2 % 32) * 32 + (a1 % 2 * 16 + a2 / 16)) * 32
              + (a2 % 16 * 2 + a3 / 128)) * 32 + a3 / 4 % 32) * 32 + (a3 % 4 * 8 + a4 / 32)) * 32 + a4 % 32
            == (((a0 as int * 256 + a1) * 256 + a2) * 256 + a3) * 256 + a4
  {
    assert a1 == a1 / 64 * 64 + a1 / 2 % 32 * 2 + a1 % 2;
    assert a3 == a3 / 128 * 128 + a3 / 4 % 32 * 4 + a3 % 4;
  }

  lemma {:induction false} EightDigits(g: seq<nat>)
    requires |g| == 8
    ensures Number(32, g) == ((((((g[0] * 32 + g[1]) * 32 + g[2]) * 32 + g[3]) * 32 + g[4]) * 32 + g[5]) * 32 + g[6]) * 32 + g[7]
  {
    Spread(32, [], g);
    assert [] + g == g;
  }

  lemma {:induction false} FiveBytes(b: bytes)
    requires |b| == 5
    ensures Number(256, b) == (((b[0] as int * 256 + b[1]) * 256 + b[2]) * 256 + b[3]) * 256 + b[4]
  {
    Spread5([], b);
    assert [] + b == b;
  }

  lemma {:induction false} Spread5(init: seq<nat>, b: seq<nat>)
    requires |b| == 5
    ensures Number(256, init + b)
            == ((((Number(256, init) * 256 + b[0]) * 256 + b[1]) * 256 + b[2]) * 256 + b[3]) * 256 + b[4]
  {
    hide Number;
    NumberSnoc(256, init, b[0]);
    NumberSnoc(256, init + [b[0]], b[1]);
    NumberSnoc(256, init + [b[0]] + [b[1]], b[2]);
    NumberSnoc(256, init + [b[0]] + [b[1]] + [b[2]], b[3]);
    NumberSnoc(256, init + [b[0]] + [b[1]] + [b[2]] + [b[3]], b[4]);
    assert init + b == init + [b[0]] + [b[1]] + [b[2]] + [b[3]] + [b[4]];
  }

  lemma {:induction false} Spread(base: nat, init: seq<nat>, g: seq<nat>)
    requires base == 32 && |g| == 8
    ensures Number(32, init + g)
            == (((((((Number(32, init) * 32 + g[0]) * 32 + g[1]) * 32 + g[2]) * 32 + g[3]) * 32 + g[4]) * 32 + g[5]) * 32 + g[6]) * 32 + g[7]
  {
    hide Number;
    var h := init + [g[0]] + [g[1]] + [g[2]] + [g[3]];
    NumberSnoc(32, init, g[0]);
    NumberSnoc(32, init + [g[0]], g[1]);
    NumberSnoc(32, init + [g[0]] + [g[1]], g[2]);
    NumberSnoc(32, init + [g[0]] + [g[1]] + [g[2]], g[3]);
    NumberSnoc(32, h, g[4]);
    NumberSnoc(32, h + [g[4]], g[5]);
    NumberSnoc(32, h + [g[4]] + [g[5]], g[6]);
    NumberSnoc(32, h + [g[4]] + [g[5]] + [g[6]], g[7]);
    assert init + g == h + [g[4]] + [g[5]] + [g[6]] + [g[7]];
  }

  /** Regrouping the bits does not change the number they write. */
  lemma {:induction false} GroupsNumber(b: bytes)
    requires |b| % 5 == 0
    ensures Number(32, Groups(b)) == Number(256, b)
    decreases |b|
  {
    hide Number, Group;
    if b == [] {
      EmptyNumber();
    } else {
      var init, last := b[..|b| - 5], b[|b| - 5..];
      GroupsNumber(init);
      GroupNumber(last);
      Spread(32, Groups(init), Group(last));
      EightDigits(Group(last));
      Spread5(init, last);
      FiveBytes(last);
      assert b == init + last;
    }
  }

  lemma {:induction false} EmptyNumber()
    ensures Number(32, []) == 0 == Number(256, [])
  {
  }

  lemma {:induction false} Base32Spellings(s: bytes, b: bytes)
    requires |s| == INFO_HASH_BASE32_LEN && |b| == INFO_HASH_LEN
    ensures IsBase32(s) && Base32Bytes(s) == b <==> SpellsUpper(s, Base32Text(b))
  {
    hide Number, Digits, Digit32, Groups;
    GroupsNumber(b);
    DigitsOfNumber(256, b);
    if IsBase32(s) && Base32Bytes(s) == b {
      NumberOfBytes(s);
      NumberInjective(32, Digits32(s), Groups(b));
      forall i | 0 <= i < |s| ensures Upper(s[i]) == Base32Text(b)[i] { DigitSpelling(s[i], Groups(b)[i]); }
    }
    if SpellsUpper(s, Base32Text(b)) {
      forall i | 0 <= i < |s| ensures Digit32(s[i]) == Some(Groups(b)[i]) {
        assert Upper(s[i]) == Base32Text(b)[i];
        DigitSpelling(s[i], Groups(b)[i]);
      }
      assert Digits32(s) == Groups(b);
    }
  }

  function Power(base: nat, k: nat): nat {
    if k == 0 then 1 else base * Power(base, k - 1)
  }

  lemma {:induction false} NumberBound(digits: seq<nat>)
    requires forall i | 0 <= i < |digits| :: digits[i] < 32
    ensures Number(32, digits) < Power(32, |digits|)
  {
    if digits != [] { NumberBound(digits[..|digits| - 1]); }
  }

  lemma {:induction false} NumberOfDigits(n: nat, k: nat)
    requires n < Power(256, k)
    ensures Number(256, Digits(256, n, k)) == n
  {
    if k > 0 {
      NumberOfDigits(n / 256, k - 1);
      NumberSnoc(256, Digits(256, n / 256, k - 1), n % 256);
    }
  }

  lemma {:induction false} SamePowers(j: nat)
    ensures Power(32, 8 * j) == Power(256, 5 * j)
  {
    if j > 0 {
      SamePowers(j - 1);
      var i := 8 * (j - 1);
      assert Power(32, i + 2) == 1024 * Power(32, i) && Power(32, i + 4) == 1024 * Power(32, i + 2);
      assert Power(32, i + 6) == 1024 * Power(32, i + 4) && Power(32, i + 8) == 1024 * Power(32, i + 6);
      var m := 5 * (j - 1);
      assert Power(256, m + 2) == 65536 * Power(256, m) && Power(256, m + 4) == 65536 * Power(256, m + 2);
      assert Power(256, m + 5) == 256 * Power(256, m + 4);
    }
  }

  /** 160 bits fit 20 bytes, so writing them loses nothing. */
  lemma {:induction false} NumberOfBytes(s: bytes)
    requires |s| == INFO_HASH_BASE32_LEN && IsBase32(s)
    ensures Number(256, Base32Bytes(s)) == Number(32, Digits32(s))
  {
    hide Power, Number, Digits, Digit32;
    var n := Number(32, Digits32(s));
    NumberBound(Digits32(s));
    SamePowers(4);
    NumberOfDigits(n, INFO_HASH_LEN);
    assert AsBytes(Digits(256, n, INFO_HASH_LEN)) == Digits(256, n, INFO_HASH_LEN);
  }

  /** A text decodes to an info hash exactly when it spells, in any letter
      case, that hash's hex text or its base32 text. */
  lemma {:induction false} DecodesExactlyItsSpellings(s: bytes, b: bytes)
    ensures InfoHashOfText(s) == Some(b) <==>
            |b| == INFO_HASH_LEN && (SpellsLower(s, HexText(b)) || SpellsUpper(s, Base32Text(b)))
  {
    hide HexText, Base32Text, HexBytes, Base32Bytes, IsHex, IsBase32, SpellsLower, SpellsUpper;
    HexSpellings(s, b);
    if |b| == INFO_HASH_LEN {
      SpellingLengths(s, b);
      if |s| == INFO_HASH_BASE32_LEN { Base32Spellings(s, b); }
    }
  }

  lemma {:induction false} SpellingLengths(s: bytes, b: bytes)
    requires |b| == INFO_HASH_LEN
    ensures SpellsLower(s, HexText(b)) ==> |s| == INFO_HASH_HEX_LEN
    ensures SpellsUpper(s, Base32Text(b)) ==> |s| == INFO_HASH_BASE32_LEN
  {
  }

  /** In particular both standard texts of every hash decode to it. */
  lemma {:induction false} StandardTextsDecode(b: bytes)
    requires |b| == INFO_HASH_LEN
    ensures InfoHashOfText(HexText(b)) == Some(b) && InfoHashOfText(Base32Text(b)) == Some(b)
  {
    hide InfoHashOfText;
    DecodesExactlyItsSpellings(HexText(b), b);
    DecodesExactlyItsSpellings(Base32Text(b), b);
    forall i | 0 <= i < |Base32Text(b)| ensures Upper(Base32Text(b)[i]) == Base32Text(b)[i] {
      Alphabet(Groups(b)[i]);
    }
  }
}
