/** What Rust's `str` may hold: exactly the sequences of Unicode scalar values,
    encoded by section 3 of RFC 3629. */
module Utf8 {
  import opened Bytes

  /** A code point that is not a surrogate. */
  type Scalar = c: int | 0 <= c < 0xD800 || 0xE000 <= c <= 0x10FFFF

  function Units(c: Scalar): (r: bytes)
    ensures 0 < |r| <= 4
  {
    if c < 0x80 then [c]
    else if c < 0x800 then [0xC0 + c / 0x40, 0x80 + c % 0x40]
    else if c < 0x1_0000 then [0xE0 + c / 0x1000, 0x80 + c / 0x40 % 0x40, 0x80 + c % 0x40]
    else [0xF0 + c / 0x4_0000, 0x80 + c / 0x1000 % 0x40, 0x80 + c / 0x40 % 0x40, 0x80 + c % 0x40]
  }

  function Text(cs: seq<Scalar>): bytes {
    if cs == [] then [] else Units(cs[0]) + Text(cs[1..])
  }

  lemma {:induction false} UnitsAreValid(c: Scalar, rest: bytes)
    requires ValidUtf8(rest)
    ensures ValidUtf8(Units(c) + rest)
  {
    var s := Units(c) + rest;
    assert s[|Units(c)|..] == rest;
  }

  lemma {:induction false} TextIsValid(cs: seq<Scalar>)
    ensures ValidUtf8(Text(cs))
  {
    hide Units, ValidUtf8;
    if cs == [] {
      NothingIsValid();
    } else {
      TextIsValid(cs[1..]);
      UnitsAreValid(cs[0], Text(cs[1..]));
    }
  }

  lemma {:induction false} NothingIsValid()
    ensures ValidUtf8([])
  {
  }

  lemma {:induction false} SixBits(high: nat, low: nat)
    requires low < 0x40
    ensures (high * 0x40 + low) / 0x40 == high && (high * 0x40 + low) % 0x40 == low
  {
  }

  lemma {:induction false} TwoUnits(x: nat, y: nat) returns (c: Scalar)
    requires 2 <= x < 0x20 && y < 0x40
    ensures Units(c) == [0xC0 + x, 0x80 + y]
  {
    c := x * 0x40 + y;
    SixBits(x, y);
  }

  lemma {:induction false} ThreeUnits(x: nat, y: nat, z: nat) returns (c: Scalar)
    requires x < 0x10 && y < 0x40 && z < 0x40 && (x == 0 ==> y >= 0x20) && (x == 0xD ==> y < 0x20)
    ensures Units(c) == [0xE0 + x, 0x80 + y, 0x80 + z]
  {
    var n := x * 0x40 + y;
    c := n * 0x40 + z;
    SixBits(x, y);
    SixBits(n, z);
    assert c / 0x1000 == c / 0x40 / 0x40;
  }

  lemma {:induction false} FourUnits(x: nat, y: nat, z: nat, w: nat) returns (c: Scalar)
    requires x < 5 && y < 0x40 && z < 0x40 && w < 0x40 && (x == 0 ==> y >= 0x10) && (x == 4 ==> y < 0x10)
    ensures Units(c) == [0xF0 + x, 0x80 + y, 0x80 + z, 0x80 + w]
  {
    var n := x * 0x40 + y;
    var m := n * 0x40 + z;
    c := m * 0x40 + w;
    SixBits(x, y);
    SixBits(n, z);
    SixBits(m, w);
    assert c / 0x1000 == c / 0x40 / 0x40 && c / 0x4_0000 == c / 0x1000 / 0x40;
  }

  /** The scalar value at the head of a valid text. */
  lemma {:induction false} Head(s: bytes) returns (c: Scalar)
    requires ValidUtf8(s) && s != []
    ensures |Units(c)| <= |s| && Units(c) == s[..|Units(c)|] && ValidUtf8(s[|Units(c)|..])
  {
    if s[0] < 0x80 {
      c := s[0];
    } else {
      hide Units;
      if s[0] <= 0xDF {
        c := TwoUnits(s[0] as int - 0xC0, s[1] as int - 0x80);
      } else if s[0] <= 0xEF {
        c := ThreeUnits(s[0] as int - 0xE0, s[1] as int - 0x80, s[2] as int - 0x80);
      } else {
        c := FourUnits(s[0] as int - 0xF0, s[1] as int - 0x80, s[2] as int - 0x80, s[3] as int - 0x80);
      }
    }
  }

  lemma {:induction false} Read(s: bytes) returns (cs: seq<Scalar>)
    requires ValidUtf8(s)
    ensures Text(cs) == s
  {
    hide Units, ValidUtf8;
    cs := [];
    if s != [] {
      var c := Head(s);
      var rest := Read(s[|Units(c)|..]);
      cs := [c] + rest;
      assert s == s[..|Units(c)|] + s[|Units(c)|..];
    }
  }

  /** `std::str::from_utf8` accepts exactly the encoded texts. */
  lemma {:induction false} ValidIff(s: bytes)
    ensures ValidUtf8(s) <==> exists cs: seq<Scalar> :: Text(cs) == s
  {
    hide Text, ValidUtf8;
    if ValidUtf8(s) { var cs := Read(s); }
    forall cs: seq<Scalar> | Text(cs) == s ensures ValidUtf8(s) { TextIsValid(cs); }
  }
}
