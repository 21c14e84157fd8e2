/** Bytes, byte strings, the machine integers, and the validity test behind
    Rust's `str`. Text is a byte string throughout, as it is in Rust. */
module Bytes {
  type byte = b: int | 0 <= b < 256
  type bytes = seq<byte>

  const I64_MIN: int := -0x8000_0000_0000_0000
  const I64_MAX: int := 0x7FFF_FFFF_FFFF_FFFF
  const USIZE_MAX: int := 0xFFFF_FFFF_FFFF_FFFF
  const U32_MODULUS: int := 0x1_0000_0000
  const U64_MODULUS: int := 0x1_0000_0000_0000_0000

  /** No Rust byte slice or vector is longer than this. */
  const ISIZE_MAX: int := I64_MAX

  type i64 = n: int | I64_MIN <= n <= I64_MAX
  type u64 = n: int | 0 <= n <= USIZE_MAX
  type u32 = n: int | 0 <= n < U32_MODULUS

  /** Rust's `u64 as i64` and `i64 as u64`. */
  function AsI64(n: u64): i64 { if n > I64_MAX then n - U64_MODULUS else n }

  function AsU64(n: i64): u64 { if n < 0 then n + U64_MODULUS else n }

  /** A byte string literal, `b"..."`. */
  function Ascii(s: string): (r: bytes)
    ensures |r| == |s|
    ensures forall i | 0 <= i < |s| :: r[i] == s[i] as int % 256
  {
    seq(|s|, i requires 0 <= i < |s| => s[i] as int % 256)
  }

  /** `s` stands in `data` at `pos`. */
  predicate At(data: bytes, pos: nat, s: bytes) {
    pos + |s| <= |data| && forall i | 0 <= i < |s| :: data[pos + i] == s[i]
  }

  lemma {:induction false} AtIsSlice(data: bytes, pos: nat, s: bytes)
    ensures At(data, pos, s) <==> pos + |s| <= |data| && data[pos..pos + |s|] == s
  {
    if pos + |s| <= |data| && data[pos..pos + |s|] == s {
      forall i | 0 <= i < |s| ensures data[pos + i] == s[i] {
        assert data[pos..pos + |s|][i] == s[i];
      }
    }
  }

  lemma {:induction false} AtSelf(data: bytes)
    ensures At(data, 0, data)
  {
  }

  lemma {:induction false} AtFirst(data: bytes, pos: nat, s: bytes)
    requires At(data, pos, s) && s != []
    ensures pos + |s| <= |data| && data[pos] == s[0]
  {
    assert data[pos + 0] == s[0];
  }

  lemma {:induction false} AtConcat(data: bytes, pos: nat, a: bytes, b: bytes)
    ensures At(data, pos, a + b) <==> At(data, pos, a) && At(data, pos + |a|, b)
  {
    if At(data, pos, a + b) {
      forall i | 0 <= i < |a| ensures data[pos + i] == a[i] { assert (a + b)[i] == a[i]; }
      forall i | 0 <= i < |b| ensures data[pos + |a| + i] == b[i] { assert (a + b)[|a| + i] == b[i]; }
    }
    if At(data, pos, a) && At(data, pos + |a|, b) {
      forall i | 0 <= i < |a + b| ensures data[pos + i] == (a + b)[i] {
        if i >= |a| { assert data[pos + |a| + (i - |a|)] == b[i - |a|]; }
      }
    }
  }

  predicate Continuation(b: byte) { 0x80 <= b <= 0xBF }

  /** Rust's `std::str::from_utf8` succeeds: the table of section 4 of RFC 3629. */
  predicate ValidUtf8(s: bytes) {
    if s == [] then true
    else if s[0] < 0x80 then ValidUtf8(s[1..])
    else if 0xC2 <= s[0] <= 0xDF then |s| >= 2 && Continuation(s[1]) && ValidUtf8(s[2..])
    else if 0xE0 <= s[0] <= 0xEF then
      && |s| >= 3 && Continuation(s[1]) && Continuation(s[2])
      && (s[0] == 0xE0 ==> s[1] >= 0xA0) && (s[0] == 0xED ==> s[1] <= 0x9F)
      && ValidUtf8(s[3..])
    else if 0xF0 <= s[0] <= 0xF4 then
      && |s| >= 4 && Continuation(s[1]) && Continuation(s[2]) && Continuation(s[3])
      && (s[0] == 0xF0 ==> s[1] >= 0x90) && (s[0] == 0xF4 ==> s[1] <= 0x8F)
      && ValidUtf8(s[4..])
    else false
  }

  /** What Rust's `&str` guarantees. */
  predicate IsStr(s: bytes) {
    ValidUtf8(s) && |s| <= ISIZE_MAX
  }
}
