/** UTF-8 (RFC 3629) on Unicode scalar values: round trip, and code point order survives the encoding. */
module Utf8 {
  import opened Wrappers

  type Byte = b: int | 0 <= b < 256
  type Scalar = c: int | 0 <= c <= 0x10FFFF && !(0xD800 <= c <= 0xDFFF)
  type Text = seq<Scalar>
  type Bytes = seq<Byte>

  function EncodeChar(c: Scalar): (r: Bytes)
    ensures 1 <= |r| <= 4
  {
    if c < 0x80 then [c]
    else if c < 0x800 then [0xC0 + c / 64, 0x80 + c % 64]
    else if c < 0x10000 then [0xE0 + c / 4096, 0x80 + c / 64 % 64, 0x80 + c % 64]
    else [0xF0 + c / 262144, 0x80 + c / 4096 % 64, 0x80 + c / 64 % 64, 0x80 + c % 64]
  }

  function Encode(s: Text): Bytes {
    if s == [] then [] else EncodeChar(s[0]) + Encode(s[1..])
  }

  predicate Tail(b: Byte) {
    0x80 <= b < 0xC0
  }

  predicate IsScalar(v: int) {
    0 <= v <= 0x10FFFF && !(0xD800 <= v <= 0xDFFF)
  }

  function Two(x: int, y: int): int { (x - 0xC0) * 64 + (y - 0x80) }
  function Three(x: int, y: int, z: int): int { (x - 0xE0) * 4096 + (y - 0x80) * 64 + (z - 0x80) }
  function Four(w: int, x: int, y: int, z: int): int { (w - 0xF0) * 262144 + (x - 0x80) * 4096 + (y - 0x80) * 64 + (z - 0x80) }

  /** A decoded value, unless it is a surrogate, out of range or an overlong form. */
  function Accept(v: int, least: int, size: nat): Option<(Scalar, nat)> {
    if least <= v && IsScalar(v) then Some((v, size)) else None
  }

  /** The first character of a byte string and the number of bytes it takes. */
  function DecodeChar(b: Bytes): Option<(Scalar, nat)>
    requires b != []
  {
    if b[0] < 0x80 then Some((b[0], 1))
    else if 0xC0 <= b[0] < 0xE0 && |b| >= 2 && Tail(b[1]) then Accept(Two(b[0], b[1]), 0x80, 2)
    else if 0xE0 <= b[0] < 0xF0 && |b| >= 3 && Tail(b[1]) && Tail(b[2]) then
      Accept(Three(b[0], b[1], b[2]), 0x800, 3)
    else if 0xF0 <= b[0] < 0xF8 && |b| >= 4 && Tail(b[1]) && Tail(b[2]) && Tail(b[3]) then
      Accept(Four(b[0], b[1], b[2], b[3]), 0x10000, 4)
    else None
  }

  function Decode(b: Bytes): Option<Text>
    decreases |b|
  {
    if b == [] then Some([])
    else
      var first := DecodeChar(b);
      if first.None? || |b| < first.value.1 || first.value.1 == 0 then None
      else
        var rest := Decode(b[first.value.1..]);
        if rest.None? then None else Some([first.value.0] + rest.value)
  }

  /** The base 64 digits of a number. */
  lemma Digits(c: nat)
    ensures c == c / 64 * 64 + c % 64
    ensures c / 64 == c / 4096 * 64 + c / 64 % 64
    ensures c / 4096 == c / 262144 * 64 + c / 4096 % 64
  {
  }

  lemma DecodeEncodedChar(c: Scalar, rest: Bytes)
    ensures DecodeChar(EncodeChar(c) + rest) == Some((c, |EncodeChar(c)|))
  {
    var e := EncodeChar(c);
    var b := e + rest;
    Digits(c);
    assert b[0] == e[0];
    if c < 0x80 {
    } else if c < 0x800 {
      assert b[1] == e[1];
    } else if c < 0x10000 {
      assert b[1] == e[1] && b[2] == e[2];
      assert Three(e[0], e[1], e[2]) == c;
    } else {
      assert b[1] == e[1] && b[2] == e[2] && b[3] == e[3];
      assert Four(e[0], e[1], e[2], e[3]) == c;
    }
  }

  /** Decoding undoes encoding. */
  lemma {:induction false} DecodeEncode(s: Text)
    ensures Decode(Encode(s)) == Some(s)
  {
    if s != [] {
      DecodeEncodedChar(s[0], Encode(s[1..]));
      DecodeEncode(s[1..]);
      assert Encode(s)[|EncodeChar(s[0])|..] == Encode(s[1..]);
      assert [s[0]] + s[1..] == s;
    }
  }

  lemma {:induction false} EncodeInjective(s: Text, t: Text)
    requires Encode(s) == Encode(t)
    ensures s == t
  {
    DecodeEncode(s);
    DecodeEncode(t);
  }

  // ---------- order ----------

  /** Dictionary order, as Python compares str and bytes. */
  predicate Less(a: seq<int>, b: seq<int>) {
    b != [] && (a == [] || a[0] < b[0] || (a[0] == b[0] && Less(a[1..], b[1..])))
  }

  /** They agree up to k, and there the first one ends or has the smaller number. */
  predicate FirstAt(a: seq<int>, b: seq<int>, k: nat) {
    k <= |a| && k < |b| && a[..k] == b[..k] && (k == |a| || a[k] < b[k])
  }

  lemma StartsAlike(a: seq<int>, b: seq<int>, k: nat)
    requires FirstAt(a, b, k)
    ensures k > 0 ==> a != [] && b != [] && a[0] == b[0]
  {
    if k > 0 { assert a[0] == a[..k][0] && b[0] == b[..k][0]; }
  }

  /** The order of dictionaries: the first difference decides, and a beginning comes before the whole. */
  lemma {:induction false} LessIff(a: seq<int>, b: seq<int>)
    ensures Less(a, b) <==> exists k: nat :: FirstAt(a, b, k)
  {
    if a == [] || b == [] || a[0] != b[0] {
      if Less(a, b) { assert FirstAt(a, b, 0); }
      forall k: nat | FirstAt(a, b, k) ensures k == 0 { StartsAlike(a, b, k); }
    } else {
      LessIff(a[1..], b[1..]);
      if k: nat :| FirstAt(a[1..], b[1..], k) {
        assert a[..k + 1] == [a[0]] + a[1..][..k] && b[..k + 1] == [b[0]] + b[1..][..k];
        assert FirstAt(a, b, k + 1);
      }
      if k: nat :| FirstAt(a, b, k) {
        assert k > 0;
        assert a[1..][..k - 1] == a[..k][1..] && b[1..][..k - 1] == b[..k][1..];
        assert FirstAt(a[1..], b[1..], k - 1);
      }
    }
  }

  lemma {:induction false} LessTotal(a: seq<int>, b: seq<int>)
    ensures Less(a, b) || Less(b, a) || a == b
  {
    if a != [] && b != [] && a[0] == b[0] {
      LessTotal(a[1..], b[1..]);
      assert a == [a[0]] + a[1..] && b == [b[0]] + b[1..];
    }
  }

  lemma {:induction false} LessTrans(a: seq<int>, b: seq<int>, c: seq<int>)
    requires Less(a, b) && Less(b, c)
    ensures Less(a, c)
  {
    if a != [] && a[0] == b[0] == c[0] { LessTrans(a[1..], b[1..], c[1..]); }
  }

  lemma {:induction false} LessIrreflexive(a: seq<int>)
    ensures !Less(a, a)
  {
    if a != [] { LessIrreflexive(a[1..]); }
  }

  lemma {:induction false} LessAppendSame(p: seq<int>, a: seq<int>, b: seq<int>)
    requires Less(a, b)
    ensures Less(p + a, p + b)
  {
    if p == [] {
      assert p + a == a && p + b == b;
    } else {
      LessAppendSame(p[1..], a, b);
      assert (p + a)[1..] == p[1..] + a && (p + b)[1..] == p[1..] + b;
    }
  }

  /** The first k bytes agree and the next one is smaller. */
  predicate Differs(a: seq<int>, b: seq<int>, k: nat) {
    k < |a| && k < |b| && a[..k] == b[..k] && a[k] < b[k]
  }

  lemma {:induction false} DiffersIsLess(a: seq<int>, b: seq<int>, k: nat, x: seq<int>, y: seq<int>)
    requires Differs(a, b, k)
    ensures Less(a + x, b + y)
  {
    if k > 0 {
      assert a[0] == a[..k][0] == b[..k][0] == b[0];
      assert a[1..][..k - 1] == a[..k][1..] && b[1..][..k - 1] == b[..k][1..];
      DiffersIsLess(a[1..], b[1..], k - 1, x, y);
      assert (a + x)[1..] == a[1..] + x && (b + y)[1..] == b[1..] + y;
    }
  }

  /** Comparing two numbers by their base 64 digits. */
  lemma DigitOrder(c: nat, d: nat)
    requires c < d
    ensures c / 262144 <= d / 262144
    ensures c / 262144 == d / 262144 ==> c / 4096 <= d / 4096
    ensures c / 4096 == d / 4096 ==> c / 64 <= d / 64
    ensures c / 64 == d / 64 ==> c % 64 < d % 64
    ensures c / 4096 < d / 4096 && c / 262144 == d / 262144 ==> c / 4096 % 64 < d / 4096 % 64
    ensures c / 64 < d / 64 && c / 4096 == d / 4096 ==> c / 64 % 64 < d / 64 % 64
  {
    Digits(c);
    Digits(d);
  }

  /** The encodings of two code points differ at the first byte that tells their sizes or values apart. */
  lemma CharOrder(c: Scalar, d: Scalar) returns (k: nat)
    requires c < d
    ensures Differs(EncodeChar(c), EncodeChar(d), k)
  {
    DigitOrder(c, d);
    if c < 0x80 || (c < 0x800 && d >= 0x800) || (c < 0x10000 && d >= 0x10000) {
      k := 0;
    } else if d < 0x800 {
      k := if c / 64 < d / 64 then 0 else 1;
    } else if d < 0x10000 {
      k := if c / 4096 < d / 4096 then 0 else if c / 64 < d / 64 then 1 else 2;
    } else {
      k := if c / 262144 < d / 262144 then 0 else if c / 4096 < d / 4096 then 1 else if c / 64 < d / 64 then 2 else 3;
    }
  }

  /** Code point order is byte order after encoding. */
  lemma {:induction false} OrderSurvives(s: Text, t: Text)
    requires Less(s, t)
    ensures Less(Encode(s), Encode(t))
  {
    if s == [] {
    } else if s[0] < t[0] {
      var k := CharOrder(s[0], t[0]);
      DiffersIsLess(EncodeChar(s[0]), EncodeChar(t[0]), k, Encode(s[1..]), Encode(t[1..]));
    } else {
      OrderSurvives(s[1..], t[1..]);
      LessAppendSame(EncodeChar(s[0]), Encode(s[1..]), Encode(t[1..]));
    }
  }

  lemma {:induction false} OrderReflected(s: Text, t: Text)
    ensures Less(Encode(s), Encode(t)) <==> Less(s, t)
  {
    LessTotal(s, t);
    if Less(s, t) { OrderSurvives(s, t); }
    if Less(t, s) {
      OrderSurvives(t, s);
      if Less(Encode(s), Encode(t)) { LessTrans(Encode(s), Encode(t), Encode(s)); }
      LessIrreflexive(Encode(s));
      if Less(s, t) { LessTrans(s, t, s); LessIrreflexive(s); }
    }
    LessIrreflexive(s);
    LessIrreflexive(Encode(s));
  }

  /** A text without NUL is encoded without a zero byte. */
  lemma {:induction false} NoZeroByte(s: Text)
    requires 0 !in s
    ensures 0 !in Encode(s)
  {
    if s != [] {
      NoZeroByte(s[1..]);
      assert s == [s[0]] + s[1..];
    }
  }

  /** The table of section 3 of RFC 3629: which bytes a character takes, and where its bits are. */
  lemma EncodedForm(c: Scalar)
    ensures c < 0x80 ==> EncodeChar(c) == [c]
    ensures 0x80 <= c < 0x800 ==>
              exists x: Byte, y: Byte :: EncodeChar(c) == [x, y] && 0xC2 <= x <= 0xDF && 0x80 <= y <= 0xBF
                && c == (x - 0xC0) * 64 + (y - 0x80)
    ensures 0x800 <= c < 0x10000 ==>
              exists x: Byte, y: Byte, z: Byte ::
                EncodeChar(c) == [x, y, z] && 0xE0 <= x <= 0xEF && 0x80 <= y <= 0xBF && 0x80 <= z <= 0xBF
                && c == ((x - 0xE0) * 64 + (y - 0x80)) * 64 + (z - 0x80)
    ensures 0x10000 <= c ==>
              exists w: Byte, x: Byte, y: Byte, z: Byte ::
                EncodeChar(c) == [w, x, y, z] && 0xF0 <= w <= 0xF4
                && 0x80 <= x <= 0xBF && 0x80 <= y <= 0xBF && 0x80 <= z <= 0xBF
                && c == (((w - 0xF0) * 64 + (x - 0x80)) * 64 + (y - 0x80)) * 64 + (z - 0x80)
  {
    Digits(c);
    var r := EncodeChar(c);
    if 0x80 <= c < 0x800 {
      assert r == [r[0], r[1]];
    } else if 0x800 <= c < 0x10000 {
      assert r == [r[0], r[1], r[2]];
    } else if 0x10000 <= c {
      assert r == [r[0], r[1], r[2], r[3]];
    }
  }

  /** A number is made of its base 64 digits in one way. */
  lemma DigitsOf(high: nat, low: nat)
    requires low < 64
    ensures (high * 64 + low) / 64 == high && (high * 64 + low) % 64 == low
  {
  }

  lemma DecodedTwo(x: Byte, y: Byte)
    requires 0xC0 <= x < 0xE0 && Tail(y) && Accept(Two(x, y), 0x80, 2).Some?
    ensures EncodeChar(Two(x, y)) == [x, y]
  {
    DigitsOf(x - 0xC0, y - 0x80);
  }

  lemma DecodedThree(x: Byte, y: Byte, z: Byte)
    requires 0xE0 <= x < 0xF0 && Tail(y) && Tail(z) && Accept(Three(x, y, z), 0x800, 3).Some?
    ensures EncodeChar(Three(x, y, z)) == [x, y, z]
  {
    var c := Three(x, y, z);
    Digits(c);
    DigitsOf(x - 0xE0, y - 0x80);
    DigitsOf((x - 0xE0) * 64 + (y - 0x80), z - 0x80);
    assert c / 64 == (x - 0xE0) * 64 + (y - 0x80);
  }

  lemma DecodedFour(w: Byte, x: Byte, y: Byte, z: Byte)
    requires 0xF0 <= w < 0xF8 && Tail(x) && Tail(y) && Tail(z) && Accept(Four(w, x, y, z), 0x10000, 4).Some?
    ensures EncodeChar(Four(w, x, y, z)) == [w, x, y, z]
  {
    var c := Four(w, x, y, z);
    Digits(c);
    DigitsOf(w - 0xF0, x - 0x80);
    DigitsOf((w - 0xF0) * 64 + (x - 0x80), y - 0x80);
    DigitsOf(((w - 0xF0) * 64 + (x - 0x80)) * 64 + (y - 0x80), z - 0x80);
    assert c / 64 == ((w - 0xF0) * 64 + (x - 0x80)) * 64 + (y - 0x80);
    assert c / 4096 == (w - 0xF0) * 64 + (x - 0x80);
  }

  lemma DecodedChar(b: Bytes)
    requires b != [] && DecodeChar(b).Some?
    ensures var (c, n) := DecodeChar(b).value; n <= |b| && EncodeChar(c) == b[..n]
  {
    var (c, n) := DecodeChar(b).value;
    if b[0] < 0x80 { assert b[..1] == [b[0]]; }
    else if b[0] < 0xE0 { DecodedTwo(b[0], b[1]); assert b[..2] == [b[0], b[1]]; }
    else if b[0] < 0xF0 { DecodedThree(b[0], b[1], b[2]); assert b[..3] == [b[0], b[1], b[2]]; }
    else { DecodedFour(b[0], b[1], b[2], b[3]); assert b[..4] == [b[0], b[1], b[2], b[3]]; }
  }

  /** The decoder accepts nothing but encodings: no overlong form, no surrogate, nothing cut off. */
  lemma {:induction false} EncodeDecode(b: Bytes)
    requires Decode(b).Some?
    ensures Encode(Decode(b).value) == b
    decreases |b|
  {
    if b != [] {
      var (c, n) := DecodeChar(b).value;
      DecodedChar(b);
      EncodeDecode(b[n..]);
      var rest := Decode(b[n..]).value;
      assert ([c] + rest)[1..] == rest;
      assert b == b[..n] + b[n..];
    }
  }
}
