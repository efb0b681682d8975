/** QUIC and HTTP/3 variable-length integers (section 16 of RFC 9000). */
module Varint {
  import opened Bytes

  const MAX_VALUE: nat := 0x4000_0000_0000_0000

  /** A value with the encoding width a sender chose for it. */
  datatype Wide = Wide(value: nat, width: nat)

  predicate IsWidth(n: nat) {
    n == 1 || n == 2 || n == 4 || n == 8
  }

  /** One more than the largest value an n-byte encoding carries. */
  function Capacity(n: nat): (c: nat)
    requires IsWidth(n)
  {
    if n == 1 then 0x40 else if n == 2 then 0x4000 else if n == 4 then 0x4000_0000 else MAX_VALUE
  }

  /** The two-bit width tag. */
  function Tag(n: nat): (t: nat)
    requires IsWidth(n)
  {
    if n == 1 then 0 else if n == 2 then 1 else if n == 4 then 2 else 3
  }

  predicate Fits(w: Wide) {
    IsWidth(w.width) && w.value < Capacity(w.width)
  }

  /** The width the two top bits of the first byte announce. */
  function WidthOf(first: byte): (n: nat)
    ensures IsWidth(n)
  {
    if first < 64 then 1 else if first < 128 then 2 else if first < 192 then 4 else 8
  }

  function BigEndian(s: bytes): (v: nat)
  {
    if s == [] then 0 else BigEndian(s[..|s| - 1]) * 256 + s[|s| - 1]
  }

  function ToBigEndian(v: nat, n: nat): (s: bytes)
    ensures |s| == n
  {
    if n == 0 then [] else ToBigEndian(v / 256, n - 1) + [v % 256]
  }

  /** The value and the bytes consumed; None on a truncated integer. */
  function Decode(input: bytes): (r: Option<(nat, nat)>)
  {
    if input == [] || |input| < WidthOf(input[0]) then None
    else
      var n := WidthOf(input[0]);
      Some((BigEndian([input[0] % 64] + input[1..n]), n))
  }

  lemma BigEndianNext(head: byte, input: bytes, i: nat)
    requires 1 <= i < |input|
    ensures BigEndian([head] + input[1..i + 1]) == BigEndian([head] + input[1..i]) * 256 + input[i]
  {
    assert ([head] + input[1..i + 1])[..i] == [head] + input[1..i];
  }

  method DecodeVarint(input: bytes) returns (r: Option<(nat, nat)>)
    ensures r == Decode(input)
    ensures r.Some? ==> r.value.1 <= |input| && r.value.0 < MAX_VALUE
  {
    if |input| == 0 { return None; }
    var first := input[0];
    var len := WidthOf(first);
    if |input| < len { return None; }
    var value: nat := first % 64;
    var i := 1;
    assert [first % 64] + input[1..1] == [first % 64];
    assert BigEndian([first % 64]) == first % 64;
    while i < len
      invariant 1 <= i <= len
      invariant value == BigEndian([first % 64] + input[1..i])
    {
      BigEndianNext(first % 64, input, i);
      value := value * 256 + input[i];
      i := i + 1;
    }
    DecodeBounds(input);
    return Some((value, len));
  }

  /** `v` in exactly `n` bytes, the width tag in the two top bits. */
  function EncodeAs(w: Wide): (s: bytes)
    requires Fits(w)
  {
    ToBigEndian(w.value + Tag(w.width) * Capacity(w.width), w.width)
  }

  function ShortestWidth(v: nat): (n: nat)
    requires v < MAX_VALUE
    ensures Fits(Wide(v, n))
  {
    if v < 0x40 then 1 else if v < 0x4000 then 2 else if v < 0x4000_0000 then 4 else 8
  }

  /** The shortest legal encoding. The source panics at 2^62 and above. */
  function Encode(v: nat): (s: bytes)
    requires v < MAX_VALUE
  {
    EncodeAs(Wide(v, ShortestWidth(v)))
  }

  // ---- Big-endian arithmetic ----

  function Pow256(n: nat): (p: nat)
    ensures p > 0
  {
    if n == 0 then 1 else 256 * Pow256(n - 1)
  }

  lemma PowValues()
    ensures Pow256(0) == 1 && Pow256(1) == 0x100 && Pow256(3) == 0x100_0000
    ensures Pow256(7) == 0x100_0000_0000_0000
  {
    assert Pow256(2) == 0x1_0000;
    assert Pow256(4) == 0x1_0000_0000 && Pow256(5) == 0x100_0000_0000 && Pow256(6) == 0x1_0000_0000_0000;
  }

  /** The value splits at its first byte. */
  lemma {:induction false} BigEndianHead(b: byte, s: bytes)
    ensures BigEndian([b] + s) == b * Pow256(|s|) + BigEndian(s)
    ensures BigEndian(s) < Pow256(|s|)
  {
    if s == [] {
      assert [b] + s == [b] && [b][..0] == [];
    } else {
      var front, last := s[..|s| - 1], s[|s| - 1];
      var p := Pow256(|front|);
      BigEndianHead(b, front);
      assert ([b] + s)[..|s|] == [b] + front;
      assert BigEndian([b] + s) == BigEndian([b] + front) * 256 + last;
      assert BigEndian(s) == BigEndian(front) * 256 + last && Pow256(|s|) == 256 * p;
      hide BigEndian, Pow256;
      assert b * p * 256 == b * (256 * p);
    }
  }

  lemma {:induction false} ToFrom(v: nat, n: nat)
    requires v < Pow256(n)
    ensures BigEndian(ToBigEndian(v, n)) == v
  {
    if n > 0 {
      ToFrom(v / 256, n - 1);
      assert ToBigEndian(v, n)[..n - 1] == ToBigEndian(v / 256, n - 1);
    }
  }

  lemma {:induction false} FromTo(s: bytes)
    ensures ToBigEndian(BigEndian(s), |s|) == s
  {
    if s != [] {
      FromTo(s[..|s| - 1]);
    }
  }

  /** A value written big-endian, cut after its first byte. */
  lemma SplitHead(v: nat, n: nat)
    requires n > 0 && v < Pow256(n)
    ensures ToBigEndian(v, n)[0] * Pow256(n - 1) <= v < (ToBigEndian(v, n)[0] + 1) * Pow256(n - 1)
    ensures BigEndian(ToBigEndian(v, n)[1..]) == v - ToBigEndian(v, n)[0] * Pow256(n - 1)
  {
    var s := ToBigEndian(v, n);
    ToFrom(v, n);
    BigEndianHead(s[0], s[1..]);
    assert s == [s[0]] + s[1..];
  }

  lemma DecodeBounds(input: bytes)
    ensures Decode(input).Some? ==>
              var (v, n) := Decode(input).value;
              0 < n <= |input| && IsWidth(n) && v < Capacity(n)
  {
    if Decode(input).Some? {
      PowValues();
      hide Pow256, BigEndian;
      var n := WidthOf(input[0]);
      BigEndianHead(input[0] % 64, input[1..n]);
    }
  }

  // ---- Properties ----

  /** The tag lands in the two top bits of the first byte and nowhere else. */
  lemma TagInFirstByte(w: Wide)
    requires Fits(w)
    ensures |EncodeAs(w)| == w.width
    ensures 64 * Tag(w.width) <= EncodeAs(w)[0] < 64 * Tag(w.width) + 64
    ensures BigEndian(EncodeAs(w)[1..]) == w.value - (EncodeAs(w)[0] - 64 * Tag(w.width)) * Pow256(w.width - 1)
  {
    PowValues();
    var n, c, tag, p := w.width, Capacity(w.width), Tag(w.width), Pow256(w.width - 1);
    var s := EncodeAs(w);
    SplitHead(w.value + tag * c, n);
    HeadRange(w.value, tag, p, s[0]);
  }

  lemma HeadRange(v: nat, tag: nat, p: nat, head: nat)
    requires p > 0 && v < 64 * p
    requires head * p <= v + tag * (64 * p) < (head + 1) * p
    ensures 64 * tag <= head < 64 * tag + 64
    ensures v + tag * (64 * p) - head * p == v - (head - 64 * tag) * p
  {
    var d := head - 64 * tag;
    assert v + tag * (64 * p) - head * p == v - d * p;
    assert d < 0 ==> (d + 1) * p <= 0;
    assert d >= 64 ==> d * p >= 64 * p;
  }

  /** Whatever width the sender chose, and whatever follows, the value and its width come back. */
  lemma RoundTripAs(w: Wide, rest: bytes)
    requires Fits(w)
    ensures |EncodeAs(w)| == w.width
    ensures Decode(EncodeAs(w) + rest) == Some((w.value, w.width))
  {
    TagInFirstByte(w);
    var n := w.width;
    var s := EncodeAs(w);
    var t := s + rest;
    assert t[0] == s[0] && t[1..n] == s[1..];
    assert s[0] % 64 == s[0] - 64 * Tag(n);
    BigEndianHead(s[0] % 64, s[1..]);
  }

  lemma RoundTrip(v: nat, rest: bytes)
    requires v < MAX_VALUE
    ensures |Encode(v)| == ShortestWidth(v)
    ensures Decode(Encode(v) + rest) == Some((v, |Encode(v)|))
  {
    RoundTripAs(Wide(v, ShortestWidth(v)), rest);
  }

  /** Every accepted integer is the encoding of its value in its width: nothing else decodes. */
  lemma DecodeIsEncodeAs(input: bytes)
    requires Decode(input).Some?
    ensures var (v, n) := Decode(input).value;
            Fits(Wide(v, n)) && n <= |input| && input[..n] == EncodeAs(Wide(v, n))
  {
    DecodeBounds(input);
    PowValues();
    var (v, n) := Decode(input).value;
    var s := input[..n];
    var tag := Tag(n);
    BigEndianHead(s[0] % 64, s[1..]);
    BigEndianHead(s[0], s[1..]);
    assert s == [s[0]] + s[1..] && s[1..] == input[1..n];
    assert s[0] == s[0] % 64 + 64 * tag;
    FromTo(s);
    assert BigEndian(s) == v + tag * Capacity(n);
  }

  /** `Encode` is the shortest of all encodings of a value, and the only one of that length. */
  lemma EncodeIsShortest(input: bytes)
    requires Decode(input).Some?
    ensures var (v, n) := Decode(input).value;
            v < MAX_VALUE && |Encode(v)| <= n <= |input| &&
            (n == |Encode(v)| ==> input[..n] == Encode(v))
  {
    DecodeIsEncodeAs(input);
  }

  /** More bytes never change an integer that already decoded. */
  lemma DecodeStable(input: bytes, more: bytes)
    requires Decode(input).Some?
    ensures Decode(input + more) == Decode(input)
  {
    DecodeIsEncodeAs(input);
    var (v, n) := Decode(input).value;
    RoundTripAs(Wide(v, n), input[n..] + more);
    assert input + more == input[..n] + (input[n..] + more);
  }

  /** An integer is read from its own bytes alone. */
  lemma DecodeLocal(input: bytes, k: nat)
    requires Decode(input).Some? && Decode(input).value.1 <= k <= |input|
    ensures Decode(input[..k]) == Decode(input)
  {
    DecodeIsEncodeAs(input);
    var (v, n) := Decode(input).value;
    RoundTripAs(Wide(v, n), input[n..k]);
    assert input[..k] == input[..n] + input[n..k];
  }

  /** The sample encodings of Appendix A.1 of RFC 9000, and one for each first byte of a width. */
  lemma SampleEncodings()
    ensures Decode([0xc2, 0x19, 0x7c, 0x5e, 0xff, 0x14, 0xe8, 0x8c]) == Some((151288809941952652, 8))
    ensures Decode([0x9d, 0x7f, 0x3e, 0x7d]) == Some((494878333, 4))
    ensures Decode([0x7b, 0xbd]) == Some((15293, 2))
    ensures Decode([0x25]) == Some((37, 1)) && Decode([0x40, 0x25]) == Some((37, 2))
    ensures Decode([]) == None && Decode([0x7b]) == None
  {
    TwoBytes(0x3b, 0xbd);
    TwoBytes(0x00, 0x25);
    OneByteValue(0x25);
    var four: bytes := [0x1d, 0x7f, 0x3e, 0x7d];
    ValueOfFour(four);
    var s: bytes := [0x02, 0x19, 0x7c, 0x5e, 0xff, 0x14, 0xe8, 0x8c];
    ValueOfEight(s);
    assert [0x02] + [0xc2, 0x19, 0x7c, 0x5e, 0xff, 0x14, 0xe8, 0x8c][1..8] == s;
    assert [0x1d] + [0x9d, 0x7f, 0x3e, 0x7d][1..4] == four;
    assert [0x3b] + [0x7b, 0xbd][1..2] == [0x3b, 0xbd] && [0x00] + [0x40, 0x25][1..2] == [0x00, 0x25];
    assert [0x25] + [0x25][1..1] == [0x25];
  }

  lemma OneByteValue(a: byte)
    ensures BigEndian([a]) == a
  {
    assert [a][..0] == [];
  }

  lemma TwoBytes(a: byte, b: byte)
    ensures BigEndian([a, b]) == a as int * 0x100 + b
  {
    assert [a, b][..1] == [a];
    OneByteValue(a);
  }

  lemma ValueOfFour(s: bytes)
    requires |s| == 4
    ensures BigEndian(s) == ((s[0] as int * 0x100 + s[1]) * 0x100 + s[2]) * 0x100 + s[3]
  {
    TwoBytes(s[0], s[1]);
    assert s[..3][..2] == [s[0], s[1]];
    assert BigEndian(s[..3]) == BigEndian([s[0], s[1]]) * 0x100 + s[2];
  }

  lemma ValueOfEight(s: bytes)
    requires |s| == 8
    ensures BigEndian(s) == BigEndian(s[..4]) * 0x1_0000_0000 + BigEndian(s[4..])
    ensures BigEndian(s[..4]) == ((s[0] as int * 0x100 + s[1]) * 0x100 + s[2]) * 0x100 + s[3]
    ensures BigEndian(s[4..]) == ((s[4] as int * 0x100 + s[5]) * 0x100 + s[6]) * 0x100 + s[7]
  {
    ValueOfFour(s[..4]);
    ValueOfFour(s[4..]);
    assert s[..7][..6] == s[..6] && s[..6][..5] == s[..5] && s[..5][..4] == s[..4];
    assert BigEndian(s[..5]) == BigEndian(s[..4]) * 0x100 + s[4];
    assert BigEndian(s[..6]) == BigEndian(s[..5]) * 0x100 + s[5];
    assert BigEndian(s[..7]) == BigEndian(s[..6]) * 0x100 + s[6];
  }
}
