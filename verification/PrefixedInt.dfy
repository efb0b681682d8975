/** QPACK prefixed integers (section 5.1 of RFC 7541), as the field-section codec reads and writes them. */
module PrefixedInt {
  import opened Arith
  import opened Bytes

  const U64: nat := 0x1_0000_0000_0000_0000
  const TWO63: nat := 0x8000_0000_0000_0000

  predicate IsPrefix(p: nat) {
    1 <= p <= 8
  }

  function Mask(p: nat): (m: nat)
    requires IsPrefix(p)
    ensures 1 <= m <= 255
  {
    SmallPowers();
    Pow2(p) - 1
  }

  // ---- Reading ----

  /** The value and bytes consumed; None on truncation or an absurdly long integer. */
  function Read(input: bytes, p: nat): (r: Option<(nat, nat)>)
    requires IsPrefix(p)
  {
    if input == [] then None
    else
      var value := input[0] % Pow2(p);
      if value < Mask(p) then Some((value, 1)) else ReadMore(input, 1, value, 0)
  }

  /** The continuation bytes, seven bits each, least significant first. */
  function ReadMore(input: bytes, used: nat, value: nat, shift: nat): (r: Option<(nat, nat)>)
    decreases |input| - used
  {
    if used >= |input| then None
    else
      var value' := value + input[used] % 128 * Pow2(shift);
      if value' >= U64 then None
      else if input[used] < 128 then Some((value', used + 1))
      else if shift + 7 > 62 then None
      else ReadMore(input, used + 1, value', shift + 7)
  }

  method ReadPrefixedInt(input: bytes, p: nat) returns (r: Option<(nat, nat)>)
    requires IsPrefix(p)
    ensures r == Read(input, p)
  {
    if |input| == 0 {
      return None;
    }
    var mask := Mask(p);
    var value: nat := input[0] % Pow2(p);
    if value < mask {
      return Some((value, 1));
    }
    var used: nat, shift: nat := 1, 0;
    while true
      invariant 1 <= used <= |input|
      invariant Read(input, p) == ReadMore(input, used, value, shift)
      decreases |input| - used
    {
      if used == |input| {
        return None;
      }
      var b := input[used];
      used := used + 1;
      value := value + b % 128 * Pow2(shift);
      if value >= U64 {
        return None;
      }
      if b < 128 {
        break;
      }
      shift := shift + 7;
      if shift > 62 {
        return None;
      }
    }
    return Some((value, used));
  }

  // ---- Writing ----

  function Continuation(rest: nat): (s: bytes)
    ensures |s| > 0
  {
    if rest < 128 then [rest] else [rest % 128 + 128] + Continuation(rest / 128)
  }

  /** The low `p` bits of the flag byte are clear: they belong to the number. */
  predicate IsFlags(flags: byte, p: nat)
    requires IsPrefix(p)
  {
    flags % Pow2(p) == 0
  }

  function Write(flags: byte, p: nat, value: nat): (s: bytes)
    requires IsPrefix(p) && IsFlags(flags, p)
    ensures |s| > 0
  {
    if value < Mask(p) then
      FirstByte(flags, p, value);
      [flags + value]
    else
      FirstByte(flags, p, Mask(p));
      [flags + Mask(p)] + Continuation(value - Mask(p))
  }

  method WritePrefixedInt(out: bytes, flags: byte, p: nat, value: nat) returns (out': bytes)
    requires IsPrefix(p) && IsFlags(flags, p)
    ensures out' == out + Write(flags, p, value)
  {
    var max := Mask(p);
    FirstByte(flags, p, if value < max then value else max);
    if value < max {
      return out + [flags + value];
    }
    out' := out + [flags + max];
    var rest: nat := value - max;
    ghost var w := Write(flags, p, value);
    assert out + w == out' + Continuation(rest);
    hide Write, Mask, Pow2;
    while rest >= 128
      invariant out + w == out' + Continuation(rest)
    {
      assert out' + Continuation(rest) == (out' + [rest % 128 + 128]) + Continuation(rest / 128);
      out' := out' + [rest % 128 + 128];
      rest := rest / 128;
    }
    out' := out' + [rest];
  }

  // ---- Properties ----

  /** The prefix has room above the flags, and reading the low bits gives back what was put there. */
  lemma FirstByte(flags: byte, p: nat, v: nat)
    requires IsPrefix(p) && IsFlags(flags, p) && v <= Mask(p)
    ensures flags + v < 256
    ensures (flags + v) % Pow2(p) == v
  {
    SmallPowers();
    assert Pow2(p) * Pow2(8 - p) == 256;
    LowBits(flags, Pow2(p), Pow2(8 - p), v);
  }

  lemma LowBits(flags: nat, m: nat, j: nat, v: nat)
    requires m * j == 256 && flags < 256 && flags % m == 0 && v < m
    ensures flags + v < 256 && (flags + v) % m == v
  {
    var k := flags / m;
    assert flags == m * k;
    assert k >= j ==> m * k >= m * j;
    assert m * (k + 1) <= m * j;
    DivUnique(flags + v, m, k);
  }

  lemma PowPlus7(n: nat)
    ensures Pow2(n + 7) == 128 * Pow2(n)
  {
    assert Pow2(n + 1) == 2 * Pow2(n) && Pow2(n + 2) == 4 * Pow2(n) && Pow2(n + 3) == 8 * Pow2(n);
    assert Pow2(n + 4) == 16 * Pow2(n) && Pow2(n + 5) == 32 * Pow2(n) && Pow2(n + 6) == 64 * Pow2(n);
  }

  lemma SplitDigit(rest: nat, m: nat)
    ensures rest * m == rest % 128 * m + rest / 128 * (128 * m)
  {
    assert rest == rest % 128 + 128 * (rest / 128);
  }

  /** The continuation of a number below 2^(63 - shift) is read to its end. */
  lemma {:induction false} ReadContinuation(s: bytes, used: nat, value: nat, shift: nat, rest: nat)
    requires used + |Continuation(rest)| <= |s|
    requires s[used..used + |Continuation(rest)|] == Continuation(rest)
    requires shift % 7 == 0 && shift <= 56 && rest < Pow2(63 - shift)
    requires value + rest * Pow2(shift) < U64
    ensures ReadMore(s, used, value, shift) ==
            Some((value + rest * Pow2(shift), used + |Continuation(rest)|))
    decreases rest
  {
    hide Pow2;
    var c, m := Continuation(rest), Pow2(shift);
    assert s[used] == c[0];
    if rest >= 128 {
      FewerDigits(shift, rest);
      SplitDigit(rest, m);
      PowPlus7(shift);
      var value' := value + rest % 128 * m;
      assert value' + rest / 128 * Pow2(shift + 7) == value + rest * m;
      assert rest / 128 * Pow2(shift + 7) >= 0;
      assert s[used + 1..used + |c|] == c[1..];
      ReadContinuation(s, used + 1, value', shift + 7, rest / 128);
    }
  }

  lemma FewerDigits(shift: nat, rest: nat)
    requires shift % 7 == 0 && shift <= 56 && 128 <= rest < Pow2(63 - shift)
    ensures shift <= 49 && rest / 128 < Pow2(63 - (shift + 7))
  {
    SmallPowers();
    assert shift <= 49;
    PowPlus7(63 - (shift + 7));
  }

  /** The continuation of a larger number is refused. */
  lemma {:induction false} RefuseContinuation(s: bytes, used: nat, value: nat, shift: nat, rest: nat)
    requires used + |Continuation(rest)| <= |s|
    requires s[used..used + |Continuation(rest)|] == Continuation(rest)
    requires shift % 7 == 0 && shift <= 56 && rest >= Pow2(63 - shift)
    ensures ReadMore(s, used, value, shift).None?
    decreases rest
  {
    hide Pow2;
    var c := Continuation(rest);
    assert s[used] == c[0];
    MoreDigits(shift, rest);
    if shift <= 49 {
      assert s[used + 1..used + |c|] == c[1..];
      RefuseContinuation(s, used + 1, value + rest % 128 * Pow2(shift), shift + 7, rest / 128);
    }
  }

  lemma MoreDigits(shift: nat, rest: nat)
    requires shift % 7 == 0 && shift <= 56 && rest >= Pow2(63 - shift)
    ensures rest >= 128
    ensures shift <= 49 ==> rest / 128 >= Pow2(63 - (shift + 7))
  {
    SmallPowers();
    PowPlus7(56 - shift);
  }

  /** A written integer is read back past any trailing bytes, exactly when it exceeds its prefix by less than 2^63. */
  lemma RoundTrip(flags: byte, p: nat, value: nat, tail: bytes)
    requires IsPrefix(p) && IsFlags(flags, p) && value < U64
    ensures Read(Write(flags, p, value) + tail, p) ==
            if value < Mask(p) + TWO63 then Some((value, |Write(flags, p, value)|)) else None
  {
    hide Pow2, Continuation, ReadMore;
    var s := Write(flags, p, value) + tail;
    assert s[0] == Write(flags, p, value)[0];
    FirstByte(flags, p, if value < Mask(p) then value else Mask(p));
    if value >= Mask(p) {
      var c := Continuation(value - Mask(p));
      assert s[1..1 + |c|] == c;
      Pow63();
      SmallPowers();
      if value < Mask(p) + TWO63 {
        ReadContinuation(s, 1, Mask(p), 0, value - Mask(p));
      } else {
        RefuseContinuation(s, 1, Mask(p), 0, value - Mask(p));
      }
    }
  }

  /** The largest 64-bit value is written and not read back. */
  lemma LargestIsRefused()
    ensures IsFlags(0, 8) && Read(Write(0, 8, 0xffff_ffff_ffff_ffff), 8) == None
  {
    hide Read, Write;
    RoundTrip(0, 8, U64 - 1, []);
    assert Write(0, 8, U64 - 1) + [] == Write(0, 8, U64 - 1);
  }

  lemma Pow63()
    ensures Pow2(63) == TWO63
  {
    SmallPowers();
    PowPlus7(7);
    PowPlus7(14);
    PowPlus7(21);
    PowPlus7(28);
    PowPlus7(35);
    PowPlus7(42);
    PowPlus7(49);
    PowPlus7(56);
  }

  /** What is consumed is within the input and never empty. */
  lemma {:induction false} ReadMoreUsed(input: bytes, used: nat, value: nat, shift: nat)
    ensures ReadMore(input, used, value, shift).Some? ==>
              used < ReadMore(input, used, value, shift).value.1 <= |input|
    decreases |input| - used
  {
    if used < |input| {
      ReadMoreUsed(input, used + 1, value + input[used] % 128 * Pow2(shift), shift + 7);
    }
  }

  lemma ReadUsed(input: bytes, p: nat)
    requires IsPrefix(p)
    ensures Read(input, p).Some? ==> 0 < Read(input, p).value.1 <= |input|
  {
    if input != [] {
      ReadMoreUsed(input, 1, input[0] % Pow2(p), 0);
    }
  }

  /** The examples of Appendix C.1 of RFC 7541: 10 and 1337 in five bits, 42 in eight. */
  lemma SampleIntegers()
    ensures IsFlags(0, 5) && Write(0, 5, 10) == [0x0a] && Write(0, 5, 1337) == [0x1f, 0x9a, 0x0a]
    ensures IsFlags(0, 8) && Write(0, 8, 42) == [0x2a]
  {
    SmallPowers();
    assert Mask(5) == 31 && Mask(8) == 255;
    assert Continuation(1306) == [0x9a] + Continuation(10) && Continuation(10) == [0x0a];
  }
}
