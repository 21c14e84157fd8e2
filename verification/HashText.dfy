/**
 The two text forms of an info hash: hex, and base32 by section 6 of RFC 4648.
 The base32 loop keeps its bits in a u64 that is never masked, so all but the
 low 64 are lost on the way; only the low 12 are ever used.
 */
module HashText {
  import opened Wrappers
  import opened Bytes

  const INFO_HASH_LEN: nat := 20
  const INFO_HASH_HEX_LEN: nat := 40
  const INFO_HASH_BASE32_LEN: nat := 32
  const BASE32_ALPHABET: bytes := Ascii("ABCDEFGHIJKLMNOPQRSTUVWXYZ234567")

  // ---------- Positional notation ----------

  /** The number a big-endian digit sequence writes. */
  function Number(base: nat, digits: seq<nat>): nat {
    if digits == [] then 0 else base * Number(base, digits[..|digits| - 1]) + digits[|digits| - 1]
  }

  /** The low `k` digits of `n`, big-endian. */
  function Digits(base: nat, n: nat, k: nat): (r: seq<nat>)
    requires base > 0
    ensures |r| == k && forall i | 0 <= i < k :: r[i] < base
    decreases k
  {
    if k == 0 then [] else Digits(base, n / base, k - 1) + [n % base]
  }

  lemma {:induction false} DigitsOfNumber(base: nat, digits: seq<nat>)
    requires base == 32 || base == 256
    requires forall i | 0 <= i < |digits| :: digits[i] < base
    ensures Digits(base, Number(base, digits), |digits|) == digits
  {
    if digits != [] {
      var init, last := digits[..|digits| - 1], digits[|digits| - 1];
      DigitsOfNumber(base, init);
      var n := Number(base, init);
      if base == 32 {
        assert (32 * n + last) / 32 == n && (32 * n + last) % 32 == last;
      } else {
        assert (256 * n + last) / 256 == n && (256 * n + last) % 256 == last;
      }
      assert digits == init + [last];
    }
  }

  /** Digit sequences of one length are told apart by their numbers. */
  lemma {:induction false} NumberInjective(base: nat, a: seq<nat>, b: seq<nat>)
    requires base == 32 || base == 256
    requires |a| == |b| && Number(base, a) == Number(base, b)
    requires forall i | 0 <= i < |a| :: a[i] < base && b[i] < base
    ensures a == b
  {
    DigitsOfNumber(base, a);
    DigitsOfNumber(base, b);
  }

  // ---------- Hex ----------

  function HexNibble(c: byte): (r: Option<nat>)
    ensures r.Some? ==> r.value < 16
  {
    if 48 <= c <= 57 then Some(c - 48)
    else if 97 <= c <= 102 then Some(c - 97 + 10)
    else if 65 <= c <= 70 then Some(c - 65 + 10)
    else None
  }

  predicate IsHex(text: bytes) {
    |text| % 2 == 0 && forall i | 0 <= i < |text| :: HexNibble(text[i]).Some?
  }

  /** The byte each pair of characters writes. */
  function HexBytes(text: bytes): (r: bytes)
    requires IsHex(text)
    ensures |r| == |text| / 2
    ensures forall i {:trigger r[i]} | 0 <= i < |r| ::
              r[i] == 16 * HexNibble(text[2 * i]).value + HexNibble(text[2 * i + 1]).value
  {
    seq(|text| / 2, i requires 0 <= i < |text| / 2 =>
      16 * HexNibble(text[2 * i]).value + HexNibble(text[2 * i + 1]).value)
  }

  /** `out` is what the first `i` pairs of `hex` write. */
  ghost predicate Decoded(hex: bytes, i: nat, out: bytes) {
    2 * i <= |hex| && IsHex(hex[..2 * i]) && out == HexBytes(hex[..2 * i])
  }

  /** One more pair of characters is one more byte, if both are digits. */
  lemma {:induction false} HexPair(hex: bytes, i: nat, out: bytes)
    requires 2 * i + 2 <= |hex| && Decoded(hex, i, out)
    ensures var hi, lo := HexNibble(hex[i * 2]), HexNibble(hex[i * 2 + 1]);
            if hi.Some? && lo.Some? then Decoded(hex, i + 1, out + [16 * hi.value + lo.value])
            else !IsHex(hex)
  {
    hide HexNibble;
  }

  lemma {:induction false} AllDecoded(hex: bytes, out: bytes)
    ensures Decoded(hex, 0, [])
    ensures IsHex(hex) ==> |hex| % 2 == 0
    ensures |hex| % 2 == 0 && Decoded(hex, |hex| / 2, out) ==> IsHex(hex) && out == HexBytes(hex)
  {
    if |hex| % 2 == 0 { assert hex[..2 * (|hex| / 2)] == hex; }
  }

  method HexDecode(hex: bytes) returns (r: Option<bytes>)
    ensures r == if IsHex(hex) then Some(HexBytes(hex)) else None
  {
    hide HexNibble, IsHex, HexBytes, Decoded;
    AllDecoded(hex, []);
    if |hex| % 2 != 0 { return None; }
    var out: bytes := [];
    for i := 0 to |hex| / 2
      invariant Decoded(hex, i, out)
    {
      HexPair(hex, i, out);
      var hi, lo := HexNibble(hex[i * 2]), HexNibble(hex[i * 2 + 1]);
      if hi.None? || lo.None? { return None; }
      out := out + [16 * hi.value + lo.value];
    }
    AllDecoded(hex, out);
    return Some(out);
  }

  method HexDecode20(hex: bytes) returns (r: Option<bytes>)
    ensures r == if |hex| == INFO_HASH_HEX_LEN && IsHex(hex) then Some(HexBytes(hex)) else None
  {
    hide HexNibble, IsHex, HexBytes, Decoded;
    if |hex| != INFO_HASH_HEX_LEN { return None; }
    var out := new byte[INFO_HASH_LEN];
    AllDecoded(hex, []);
    assert out[..0] == [];
    for i := 0 to INFO_HASH_LEN
      invariant Decoded(hex, i, out[..i])
    {
      HexPair(hex, i, out[..i]);
      var hi, lo := HexNibble(hex[i * 2]), HexNibble(hex[i * 2 + 1]);
      if hi.None? || lo.None? { return None; }
      out[i] := 16 * hi.value + lo.value;
      assert out[..i + 1] == out[..i] + [out[i]];
    }
    AllDecoded(hex, out[..]);
    assert out[..INFO_HASH_LEN] == out[..];
    return Some(out[..]);
  }

  function NibbleChar(n: nat): byte
    requires n < 16
  {
    if n < 10 then 48 + n else 97 + (n - 10)
  }

  /** The half of a byte that the `i`-th hex character writes. */
  function Nibble(b: bytes, i: nat): (r: nat)
    requires i < 2 * |b|
    ensures r < 16
  {
    if i % 2 == 0 then b[i / 2] / 16 else b[i / 2] % 16
  }

  /** `hex_encode`: two lower-case characters a byte. */
  function HexText(b: bytes): (r: bytes)
    ensures |r| == 2 * |b|
    ensures forall i | 0 <= i < |r| :: r[i] == NibbleChar(Nibble(b, i))
  {
    seq(2 * |b|, i requires 0 <= i < 2 * |b| => NibbleChar(Nibble(b, i)))
  }

  // ---------- Base32 ----------

  function Upper(c: byte): byte {
    if 97 <= c <= 122 then c - 32 else c
  }

  function Lower(c: byte): byte {
    if 65 <= c <= 90 then c + 32 else c
  }

  function Position(s: bytes, c: byte): (r: Option<nat>)
    ensures r.Some? ==> r.value < |s| && s[r.value] == c && forall j | 0 <= j < r.value :: s[j] != c
    ensures r.None? ==> c !in s
  {
    if s == [] then None
    else if s[0] == c then Some(0)
    else match Position(s[1..], c) case Some(n) => Some(n + 1) case None => None
  }

  /** The value of a base32 character, in either case. */
  function Digit32(c: byte): (r: Option<nat>)
    ensures r.Some? ==> r.value < 32 && BASE32_ALPHABET[r.value] == Upper(c)
  {
    Position(BASE32_ALPHABET, Upper(c))
  }

  predicate IsBase32(text: bytes) {
    forall i | 0 <= i < |text| :: Digit32(text[i]).Some?
  }

  function Digits32(text: bytes): (r: seq<nat>)
    requires IsBase32(text)
    ensures |r| == |text| && forall i | 0 <= i < |text| :: r[i] == Digit32(text[i]).value
  {
    seq(|text|, i requires 0 <= i < |text| => Digit32(text[i]).value)
  }

  function AsBytes(digits: seq<nat>): (r: bytes)
    requires forall i | 0 <= i < |digits| :: digits[i] < 256
    ensures |r| == |digits| && forall i | 0 <= i < |r| :: r[i] == digits[i]
  {
    seq(|digits|, i requires 0 <= i < |digits| => digits[i])
  }

  /** 32 base32 characters read as one 160-bit number, written in 20 bytes. */
  function Base32Bytes(text: bytes): (r: bytes)
    requires IsBase32(text)
    ensures |r| == INFO_HASH_LEN
  {
    AsBytes(Digits(256, Number(32, Digits32(text)), INFO_HASH_LEN))
  }

  function Pow2(n: nat): (r: nat)
    requires n <= 12
    ensures r > 0
  {
    [1, 2, 4, 8, 16, 32, 64, 128, 256, 512, 1024, 2048, 4096][n]
  }

  /** `(bits << 5) | val` on a u64. */
  function ShiftIn5(bits: nat, val: nat): nat {
    (bits * 32) % U64_MODULUS + val
  }

  /** `(bits >> nbits) as u8`. */
  function ByteAt(bits: nat, nbits: nat): byte
    requires nbits <= 12
  {
    (bits / Pow2(nbits)) % 256
  }

  /** Shifting five bits in drops the bits above 64 and nothing else. */
  lemma {:induction false} ShiftIn(n: nat, bits: nat, val: nat)
    requires bits == n % U64_MODULUS && val < 32
    ensures ShiftIn5(bits, val) == (32 * n + val) % U64_MODULUS
  {
    var q := n / U64_MODULUS;
    assert n == U64_MODULUS * q + bits;
    var m := bits * 32;
    var top := m / U64_MODULUS;
    assert m == U64_MODULUS * top + m % U64_MODULUS;
    assert 32 * n + val == U64_MODULUS * (32 * q + top) + (m % U64_MODULUS + val);
    Remainder(32 * n + val, 32 * q + top, m % U64_MODULUS + val);
  }

  lemma {:induction false} Remainder(n: nat, q: nat, r: nat)
    requires n == U64_MODULUS * q + r && r < U64_MODULUS
    ensures n % U64_MODULUS == r
  {
  }

  /** The five shifts the loop makes keep to the low twelve bits. */
  lemma {:induction false} LowByte(n: nat, p: nat)
    requires p == 1 || p == 2 || p == 4 || p == 8 || p == 16
    ensures ((n % U64_MODULUS) / p) % 256 == (n / p) % 256
  {
    var q, m := n / U64_MODULUS, n % U64_MODULUS;
    assert n == U64_MODULUS * q + m;
    if p == 1 { SameByte(n / p, m / p, 0x100_0000_0000_0000 * q); }
    else if p == 2 { SameByte(n / p, m / p, 0x80_0000_0000_0000 * q); }
    else if p == 4 { SameByte(n / p, m / p, 0x40_0000_0000_0000 * q); }
    else if p == 8 { SameByte(n / p, m / p, 0x20_0000_0000_0000 * q); }
    else { SameByte(n / p, m / p, 0x10_0000_0000_0000 * q); }
  }

  lemma {:induction false} SameByte(x: nat, y: nat, q: nat)
    requires x == 256 * q + y
    ensures x % 256 == y % 256
  {
  }

  /** The bytes written so far are the high bits of the number read so far,
      all but the low `nbits`. */
  ghost predicate Written(n: nat, out: bytes, nbits: nat)
    requires nbits <= 12
  {
    Number(256, out) == n / Pow2(nbits)
  }

  /** One more character leaves what is written and adds five pending bits. */
  lemma {:induction false} PushBits(n: nat, out: bytes, nbits: nat, val: nat)
    requires nbits < 8 && Written(n, out, nbits) && val < 32
    ensures Written(32 * n + val, out, nbits + 5)
  {
    hide Number;
    Pushed(n, Pow2(nbits), val);
    assert Pow2(nbits + 5) == 32 * Pow2(nbits);
  }

  lemma {:induction false} Pushed(n: nat, p: nat, val: nat)
    requires p == 1 || p == 2 || p == 4 || p == 8 || p == 16 || p == 32 || p == 64 || p == 128
    requires val < 32
    ensures (32 * n + val) / (32 * p) == n / p
  {
    if p == 1 { } else if p == 2 { } else if p == 4 { } else if p == 8 { }
    else if p == 16 { } else if p == 32 { } else if p == 64 { } else { }
  }

  /** Writing the top eight of `nbits` pending bits, out of the 64 kept. */
  lemma {:induction false} PopByte(n: nat, out: bytes, nbits: nat)
    requires 8 <= nbits <= 12 && Written(n, out, nbits)
    ensures Written(n, out + [ByteAt(n % U64_MODULUS, nbits - 8)], nbits - 8)
  {
    hide Number;
    var p := Pow2(nbits - 8);
    assert Pow2(nbits) == 256 * p;
    LowByte(n, p);
    var b := (n / p) % 256;
    NumberSnoc(256, out, b);
    Popped(n, p);
  }

  lemma {:induction false} Popped(n: nat, p: nat)
    requires p == 1 || p == 2 || p == 4 || p == 8 || p == 16
    ensures n / p == 256 * (n / (256 * p)) + (n / p) % 256
  {
    if p == 1 { } else if p == 2 { } else if p == 4 { } else if p == 8 { } else { }
  }

  lemma {:induction false} NumberSnoc(base: nat, digits: seq<nat>, d: nat)
    ensures Number(base, digits + [d]) == base * Number(base, digits) + d
  {
    assert (digits + [d])[..|digits|] == digits;
  }

  /** One more character: five more bits. */
  lemma {:induction false} Digit32Snoc(text: bytes, i: nat)
    requires i < |text| && IsBase32(text[..i]) && Digit32(text[i]).Some?
    ensures IsBase32(text[..i + 1])
    ensures Number(32, Digits32(text[..i + 1])) == 32 * Number(32, Digits32(text[..i])) + Digit32(text[i]).value
  {
    hide Digit32, Number;
    assert Digits32(text[..i + 1]) == Digits32(text[..i]) + [Digit32(text[i]).value];
    NumberSnoc(32, Digits32(text[..i]), Digit32(text[i]).value);
  }

  /** The loop's inner `while`: writes whole bytes while eight bits are pending. */
  method WriteBytes(out: array<byte>, start: nat, bits: nat, pending: nat, ghost n: nat) returns (oi: nat, nbits: nat)
    requires out.Length == INFO_HASH_LEN && start <= INFO_HASH_LEN && pending <= 12
    requires bits == n % U64_MODULUS && Written(n, out[..start], pending)
    requires pending + 8 * start <= 8 * INFO_HASH_LEN
    modifies out
    ensures start <= oi <= INFO_HASH_LEN && nbits < 8 && nbits + 8 * oi == pending + 8 * start
    ensures Written(n, out[..oi], nbits) && out[..start] == old(out[..start])
  {
    hide Number, Pow2, Written, ByteAt;
    oi, nbits := start, pending;
    while nbits >= 8 && oi < INFO_HASH_LEN
      invariant nbits <= 12 && start <= oi <= INFO_HASH_LEN && nbits + 8 * oi == pending + 8 * start
      invariant Written(n, out[..oi], nbits) && out[..start] == old(out[..start])
      decreases nbits
    {
      PopByte(n, out[..oi], nbits);
      nbits := nbits - 8;
      out[oi] := ByteAt(bits, nbits);
      oi := oi + 1;
      assert out[..oi] == out[..oi - 1] + [out[oi - 1]];
    }
  }

  /** The accumulator is the number read so far modulo 2^64, and the bytes
      written are its bits above the low `nbits`. */
  ghost predicate Accumulated(n: nat, bits: nat, out: bytes, nbits: nat)
    requires nbits <= 12
  {
    bits == n % U64_MODULUS && Written(n, out, nbits)
  }

  /** One turn of the loop: five bits in, whole bytes out. */
  method PushDigit(out: array<byte>, start: nat, bits0: nat, pending: nat, val: nat, ghost n: nat)
    returns (bits: nat, oi: nat, nbits: nat)
    requires out.Length == INFO_HASH_LEN && start <= INFO_HASH_LEN && pending < 8 && val < 32
    requires pending + 8 * start + 5 <= 8 * INFO_HASH_LEN
    requires Accumulated(n, bits0, out[..start], pending)
    modifies out
    ensures start <= oi <= INFO_HASH_LEN && nbits < 8 && nbits + 8 * oi == pending + 8 * start + 5
    ensures Accumulated(32 * n + val, bits, out[..oi], nbits)
  {
    hide Number, Pow2, Written, ShiftIn5, ByteAt;
    ShiftIn(n, bits0, val);
    PushBits(n, out[..start], pending, val);
    bits := ShiftIn5(bits0, val);
    oi, nbits := WriteBytes(out, start, bits, pending + 5, 32 * n + val);
  }

  method DecodeBase32(text: bytes) returns (r: Option<bytes>)
    ensures r == if |text| == INFO_HASH_BASE32_LEN && IsBase32(text) then Some(Base32Bytes(text)) else None
  {
    hide Number, Digits, Digits32, Digit32, Pow2, Base32Bytes, Written, Accumulated, IsBase32, Ascii;
    if |text| != INFO_HASH_BASE32_LEN { return None; }
    var bits, nbits := 0, 0;
    var out := new byte[INFO_HASH_LEN];
    var oi := 0;
    ghost var n: nat := 0;
    Empty(text);
    assert out[..0] == [];
    for i := 0 to |text|
      invariant IsBase32(text[..i]) && n == Number(32, Digits32(text[..i]))
      invariant 0 <= nbits < 8 && 0 <= oi <= INFO_HASH_LEN && nbits + 8 * oi == 5 * i
      invariant Accumulated(n, bits, out[..oi], nbits)
    {
      var digit := Digit32(text[i]);
      if digit.None? {
        NotBase32(text, i);
        return None;
      }
      Digit32Snoc(text, i);
      bits, oi, nbits := PushDigit(out, oi, bits, nbits, digit.value, n);
      n := 32 * n + digit.value;
    }
    assert text[..|text|] == text && out[..oi] == out[..];
    Full(n, bits, out[..], text);
    return Some(out[..]);
  }

  lemma {:induction false} NotBase32(text: bytes, i: nat)
    requires i < |text| && Digit32(text[i]).None?
    ensures !IsBase32(text)
  {
    hide Digit32;
  }

  lemma {:induction false} Empty(text: bytes)
    ensures IsBase32(text[..0]) && Number(32, Digits32(text[..0])) == 0 && Accumulated(0, 0, [], 0)
  {
  }

  lemma {:induction false} Full(n: nat, bits: nat, out: bytes, text: bytes)
    requires |out| == INFO_HASH_LEN && IsBase32(text) && n == Number(32, Digits32(text))
    requires Accumulated(n, bits, out, 0)
    ensures out == Base32Bytes(text)
  {
    hide Number, Digits;
    DigitsOfNumber(256, out);
  }
}
