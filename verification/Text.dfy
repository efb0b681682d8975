/** The string operations the request parsers are made of, on the bytes of UTF-8 text. */
module Text {
  import opened Bytes

  const PLUS: byte := 43

  /** The part before the first `c` and the part after it. */
  function SplitOnce(s: bytes, c: byte): (r: Option<(bytes, bytes)>)
    ensures r.None? <==> c !in s
    ensures r.Some? ==> s == r.value.0 + [c] + r.value.1 && c !in r.value.0
  {
    if s == [] then None
    else if s[0] == c then
      assert s == [] + [c] + s[1..];
      Some(([], s[1..]))
    else
      match SplitOnce(s[1..], c)
      case None => None
      case Some((a, b)) =>
        assert s == [s[0]] + s[1..];
        Some(([s[0]] + a, b))
  }

  /** The part before the last `c` and the part after it. */
  function RSplitOnce(s: bytes, c: byte): (r: Option<(bytes, bytes)>)
    ensures r.None? <==> c !in s
    ensures r.Some? ==> s == r.value.0 + [c] + r.value.1 && c !in r.value.1
  {
    if s == [] then None
    else
      var n := |s| - 1;
      assert s == s[..n] + [s[n]];
      if s[n] == c then Some((s[..n], []))
      else
        match RSplitOnce(s[..n], c)
        case None => None
        case Some((a, b)) => Some((a, b + [s[n]]))
  }

  /** The split is the only one whose front part has no `c`. */
  lemma SplitAt(a: bytes, c: byte, b: bytes)
    requires c !in a
    ensures SplitOnce(a + [c] + b, c) == Some((a, b))
  {
    var s := a + [c] + b;
    assert s[|a|] == c;
    var (x, y) := SplitOnce(s, c).value;
    assert s[|x|] == c;
    assert forall i | 0 <= i < |a| :: s[i] == a[i] != c;
    assert forall i | 0 <= i < |x| :: s[i] == x[i] != c;
    assert x == s[..|x|] && y == s[|x| + 1..];
    assert a == s[..|a|] && b == s[|a| + 1..];
  }

  lemma InSuffix(s: bytes, i: nat, j: nat)
    ensures i < j < |s| ==> s[j] in s[i + 1..]
  {
    if i < j < |s| {
      assert s[i + 1..][j - i - 1] == s[j];
    }
  }

  lemma RSplitAt(a: bytes, c: byte, b: bytes)
    requires c !in b
    ensures RSplitOnce(a + [c] + b, c) == Some((a, b))
  {
    hide RSplitOnce;
    var s := a + [c] + b;
    assert s[|a|] == c;
    var (x, y) := RSplitOnce(s, c).value;
    assert s[|x|] == c;
    assert x == s[..|x|] && y == s[|x| + 1..];
    assert a == s[..|a|] && b == s[|a| + 1..];
    InSuffix(s, |a|, |x|);
    InSuffix(s, |x|, |a|);
  }

  function StripPrefix(s: bytes, p: bytes): (r: Option<bytes>)
  {
    if p <= s then Some(s[|p|..]) else None
  }

  /** `s` without one trailing `c`, if it has one. */
  function TrimEnd(s: bytes, c: byte): (r: bytes)
  {
    if s != [] && s[|s| - 1] == c then s[..|s| - 1] else s
  }

  // ---- Decimal ports ----

  predicate IsDigit(b: byte) {
    48 <= b <= 57
  }

  /** The number a non-empty run of digits names. */
  function DigitsValue(s: bytes): (r: Option<nat>)
  {
    if s == [] then None
    else
      var n := |s| - 1;
      if !IsDigit(s[n]) then None
      else if n == 0 then Some(s[n] - 48)
      else
        match DigitsValue(s[..n])
        case None => None
        case Some(v) => Some(10 * v + (s[n] - 48))
  }

  /** A 16-bit unsigned integer as the standard parser reads it: an optional plus sign, then digits. */
  function ParseU16(s: bytes): (r: Option<nat>)
    ensures r.Some? ==> r.value < 65536
  {
    var digits := if |s| > 1 && s[0] == PLUS then s[1..] else s;
    match DigitsValue(digits)
    case None => None
    case Some(v) => if v < 65536 then Some(v) else None
  }

  function Decimal(n: nat): (s: bytes)
    ensures s != [] && forall b | b in s :: IsDigit(b)
  {
    if n < 10 then [48 + n] else Decimal(n / 10) + [48 + n % 10]
  }

  lemma {:induction false} DecimalValue(n: nat)
    ensures DigitsValue(Decimal(n)) == Some(n)
  {
    if n >= 10 {
      DecimalValue(n / 10);
      var s := Decimal(n);
      assert s[..|s| - 1] == Decimal(n / 10);
    }
  }

  lemma ParseDecimal(n: nat)
    ensures ParseU16(Decimal(n)) == if n < 65536 then Some(n) else None
  {
    DecimalValue(n);
    assert Decimal(n)[0] in Decimal(n);
  }

  // ---- UTF-8 ----

  predicate IsCont(b: byte) {
    0x80 <= b <= 0xbf
  }

  /** How many bytes the well-formed sequence at the front takes, 0 if there is none. */
  function SequenceLength(s: bytes): (n: nat)
    requires s != []
    ensures n <= |s|
  {
    var b := s[0];
    if b < 0x80 then 1
    else if 0xc2 <= b <= 0xdf then
      if |s| >= 2 && IsCont(s[1]) then 2 else 0
    else if 0xe0 <= b <= 0xef then
      if |s| >= 3 && IsCont(s[1]) && IsCont(s[2]) && (b == 0xe0 ==> s[1] >= 0xa0) && (b == 0xed ==> s[1] <= 0x9f)
      then 3 else 0
    else if 0xf0 <= b <= 0xf4 then
      if |s| >= 4 && IsCont(s[1]) && IsCont(s[2]) && IsCont(s[3]) &&
         (b == 0xf0 ==> s[1] >= 0x90) && (b == 0xf4 ==> s[1] <= 0x8f)
      then 4 else 0
    else 0
  }

  /** Well-formed UTF-8. */
  predicate IsUtf8(s: bytes)
    decreases |s|
  {
    s == [] || (SequenceLength(s) > 0 && IsUtf8(s[SequenceLength(s)..]))
  }

  // ---- UTF-8 by code points ----

  /** A Unicode scalar value. */
  predicate IsScalar(c: nat) {
    c < 0xd800 || 0xe000 <= c < 0x11_0000
  }

  /** The encoding of section 3 of RFC 3629. */
  function EncodeScalar(c: nat): (s: bytes)
    requires IsScalar(c)
    ensures 1 <= |s| <= 4
  {
    if c < 0x80 then [c]
    else if c < 0x800 then [0xc0 + c / 0x40, 0x80 + c % 0x40]
    else if c < 0x1_0000 then [0xe0 + c / 0x1000, 0x80 + c / 0x40 % 0x40, 0x80 + c % 0x40]
    else [0xf0 + c / 0x4_0000, 0x80 + c / 0x1000 % 0x40, 0x80 + c / 0x40 % 0x40, 0x80 + c % 0x40]
  }

  function EncodeText(cs: seq<nat>): (s: bytes)
    requires forall i | 0 <= i < |cs| :: IsScalar(cs[i])
  {
    if cs == [] then [] else EncodeScalar(cs[0]) + EncodeText(cs[1..])
  }

  lemma EncodedSequence(c: nat, rest: bytes)
    requires IsScalar(c)
    ensures SequenceLength(EncodeScalar(c) + rest) == |EncodeScalar(c)|
  {
  }

  /** The bits of a well-formed sequence, put together. */
  function DecodeFront(s: bytes): (c: int)
    requires s != [] && SequenceLength(s) > 0
  {
    var n := SequenceLength(s);
    if n == 1 then s[0]
    else if n == 2 then (s[0] as int - 0xc0) * 0x40 + (s[1] - 0x80)
    else if n == 3 then (s[0] as int - 0xe0) * 0x1000 + (s[1] as int - 0x80) * 0x40 + (s[2] - 0x80)
    else (s[0] as int - 0xf0) * 0x4_0000 + (s[1] as int - 0x80) * 0x1000 + (s[2] as int - 0x80) * 0x40 + (s[3] - 0x80)
  }

  lemma TwoDigits(a: int, b: int)
    requires 0 <= b < 0x40
    ensures (a * 0x40 + b) / 0x40 == a && (a * 0x40 + b) % 0x40 == b
  {
  }

  lemma ThreeDigits(a: int, b: int, c: int)
    requires 0 <= b < 0x40 && 0 <= c < 0x40
    ensures var v := a * 0x1000 + b * 0x40 + c;
            v / 0x1000 == a && v / 0x40 % 0x40 == b && v % 0x40 == c && v / 0x40 == a * 0x40 + b
  {
    TwoDigits(a * 0x40 + b, c);
    TwoDigits(a, b);
  }

  lemma FourDigits(a: int, b: int, c: int, d: int)
    requires 0 <= b < 0x40 && 0 <= c < 0x40 && 0 <= d < 0x40
    ensures var v := a * 0x4_0000 + b * 0x1000 + c * 0x40 + d;
            v / 0x4_0000 == a && v / 0x1000 % 0x40 == b && v / 0x40 % 0x40 == c && v % 0x40 == d
  {
    ThreeDigits(a * 0x40 + b, c, d);
    TwoDigits(a, b);
  }

  lemma DecodedIsScalar(s: bytes)
    requires s != [] && SequenceLength(s) > 0
    ensures DecodeFront(s) >= 0 && IsScalar(DecodeFront(s))
    ensures var n, c := SequenceLength(s), DecodeFront(s);
            && (n == 1 <==> c < 0x80) && (n <= 2 <==> c < 0x800) && (n <= 3 <==> c < 0x1_0000) && n <= 4
  {
  }

  lemma SequenceDecoded(s: bytes)
    requires s != [] && SequenceLength(s) > 0
    ensures DecodeFront(s) >= 0 && IsScalar(DecodeFront(s))
    ensures EncodeScalar(DecodeFront(s)) == s[..SequenceLength(s)]
  {
    DecodedIsScalar(s);
    hide IsScalar;
    var n := SequenceLength(s);
    if n == 2 {
      TwoDigits(s[0] as int - 0xc0, s[1] - 0x80);
    } else if n == 3 {
      ThreeDigits(s[0] as int - 0xe0, s[1] - 0x80, s[2] - 0x80);
    } else if n == 4 {
      FourDigits(s[0] as int - 0xf0, s[1] - 0x80, s[2] - 0x80, s[3] - 0x80);
    }
  }

  /** The encoding of any code points is well-formed. */
  lemma {:induction false} EncodedIsUtf8(cs: seq<nat>)
    requires forall i | 0 <= i < |cs| :: IsScalar(cs[i])
    ensures IsUtf8(EncodeText(cs))
  {
    hide SequenceLength, EncodeScalar;
    if cs != [] {
      EncodedSequence(cs[0], EncodeText(cs[1..]));
      CutPrefix(EncodeScalar(cs[0]), EncodeText(cs[1..]));
      EncodedIsUtf8(cs[1..]);
    }
  }

  /** Whatever is well-formed is the encoding of code points. */
  lemma {:induction false} Utf8IsEncoded(s: bytes) returns (cs: seq<nat>)
    requires IsUtf8(s)
    ensures (forall i | 0 <= i < |cs| :: IsScalar(cs[i])) && EncodeText(cs) == s
    decreases |s|
  {
    hide SequenceLength, EncodeScalar, IsScalar, DecodeFront;
    cs := [];
    if s != [] {
      var n := SequenceLength(s);
      SequenceDecoded(s);
      var c := DecodeFront(s);
      var more := Utf8IsEncoded(s[n..]);
      cs := [c] + more;
      assert cs[1..] == more && s == s[..n] + s[n..];
    }
  }
}
