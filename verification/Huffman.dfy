/** HPACK/QPACK Huffman decoding, and the encoding of section 5.2 of RFC 7541 it must invert. */
module Huffman {
  import opened Bytes
  import opened Arith
  import opened HuffmanTable

  type bit = b: int | 0 <= b < 2

  type bits = seq<bit>

  datatype HuffmanError = InvalidHuffman

  // ---- Bit strings ----

  /** The low `len` bits of `code`, most significant first. */
  function CodeBits(code: nat, len: nat): (s: bits)
    ensures |s| == len
  {
    if len == 0 then [] else CodeBits(code / 2, len - 1) + [code % 2]
  }

  function BitsValue(s: bits): (v: nat)
  {
    if s == [] then 0 else 2 * BitsValue(s[..|s| - 1]) + s[|s| - 1]
  }

  function ToBits(s: bytes): (b: bits)
    ensures |b| == 8 * |s|
  {
    if s == [] then [] else CodeBits(s[0], 8) + ToBits(s[1..])
  }

  function Ones(n: nat): (s: bits)
    ensures |s| == n
  {
    if n == 0 then [] else Ones(n - 1) + [1]
  }

  lemma {:induction false} ValueOfCode(code: nat, len: nat)
    requires code < Pow2(len)
    ensures BitsValue(CodeBits(code, len)) == code
  {
    if len > 0 {
      ValueOfCode(code / 2, len - 1);
      assert CodeBits(code, len)[..len - 1] == CodeBits(code / 2, len - 1);
    }
  }

  lemma {:induction false} CodeOfValue(s: bits)
    ensures BitsValue(s) < Pow2(|s|)
    ensures CodeBits(BitsValue(s), |s|) == s
  {
    if s != [] {
      CodeOfValue(s[..|s| - 1]);
    }
  }

  lemma {:induction false} OnesCode(n: nat)
    ensures CodeBits(Pow2(n) - 1, n) == Ones(n)
  {
    if n > 0 {
      OnesCode(n - 1);
      assert (Pow2(n) - 1) / 2 == Pow2(n - 1) - 1;
    }
  }

  // ---- The encoder ----

  /** The codes of `s`, one after the other. */
  function SymbolBits(s: bytes): (b: bits)
  {
    if s == [] then []
    else CodeBits(TableRow(s[0]).code, TableRow(s[0]).len) + SymbolBits(s[1..])
  }

  function PadLength(n: nat): (p: nat)
    ensures p < 8 && (n + p) % 8 == 0
  {
    (8 - n % 8) % 8
  }

  function Padded(b: bits): (r: bits)
    ensures |r| % 8 == 0
  {
    b + Ones(PadLength(|b|))
  }

  lemma PadUnique(n: nat, p: nat)
    requires p < 8 && (n + p) % 8 == 0
    ensures p == PadLength(n)
  {
  }

  /** Whole bytes out of a bit string, most significant bit first. */
  function Pack(b: bits): (s: bytes)
    requires |b| % 8 == 0
    decreases |b|
  {
    if b == [] then []
    else
      CodeOfValue(b[..8]);
      SmallPowers();
      [BitsValue(b[..8])] + Pack(b[8..])
  }

  /** The codes of `s`, padded to a byte boundary with the high bits of EOS. */
  function Encode(s: bytes): (e: bytes)
  {
    Pack(Padded(SymbolBits(s)))
  }

  lemma {:induction false} UnpackPack(b: bits)
    requires |b| % 8 == 0
    ensures ToBits(Pack(b)) == b
    decreases |b|
  {
    if b != [] {
      CodeOfValue(b[..8]);
      UnpackPack(b[8..]);
      assert Pack(b)[1..] == Pack(b[8..]);
    }
  }

  lemma {:induction false} PackUnpack(s: bytes)
    ensures Pack(ToBits(s)) == s
  {
    if s != [] {
      SmallPowers();
      ValueOfCode(s[0], 8);
      CutPrefix(CodeBits(s[0], 8), ToBits(s[1..]));
      PackUnpack(s[1..]);
    }
  }

  // ---- The decoder ----

  /** The symbol with this code, by its canonical place. */
  function Lookup(len: nat, code: nat): (r: Option<nat>)
  {
    if len <= MAX_LEN && FirstCode(len) <= code < NextCode(len)
    then Some(SymbolAt(len, code - FirstCode(len)))
    else None
  }

  /** The lookup finds exactly the rows of the table. */
  lemma LookupIsTable(len: nat, code: nat, sym: nat)
    ensures Lookup(len, code) == Some(sym) <==> sym <= EOS && TableRow(sym) == Row(code, len)
    ensures Lookup(len, code).Some? ==>
              Lookup(len, code).value <= EOS && TableRow(Lookup(len, code).value) == Row(code, len)
  {
    if Lookup(len, code).Some? {
      EveryPlaceFilled(len, code - FirstCode(len));
    }
    if sym <= EOS && TableRow(sym) == Row(code, len) {
      EveryRowPlaced(sym);
    }
  }

  /** No two symbols share a code. */
  lemma CodesDistinct()
    ensures forall s: nat, t: nat | s <= EOS && t <= EOS && TableRow(s) == TableRow(t) :: s == t
  {
    hide TableRow, SymbolAt, FirstCode, Count;
    forall s: nat, t: nat | s <= EOS && t <= EOS && TableRow(s) == TableRow(t)
      ensures s == t
    {
      EveryRowPlaced(s);
      EveryRowPlaced(t);
    }
  }

  /** The table keyed by length and code, as the decoder's map holds it. */
  function CodeMap(): (m: map<(nat, nat), nat>)
  {
    CodesDistinct();
    map s: nat | s <= EOS :: (TableRow(s).len, TableRow(s).code) := s
  }

  lemma CodeMapGet(len: nat, code: nat)
    ensures (len, code) in CodeMap() <==> Lookup(len, code).Some?
    ensures (len, code) in CodeMap() ==> CodeMap()[(len, code)] == Lookup(len, code).value
  {
    hide TableRow, Lookup;
    var key, m := (len, code), CodeMap();
    if key in m {
      var s: nat :| s <= EOS && (TableRow(s).len, TableRow(s).code) == key && m[key] == s;
      LookupIsTable(len, code, s);
    }
    if Lookup(len, code).Some? {
      var s := Lookup(len, code).value;
      LookupIsTable(len, code, s);
      assert (TableRow(s).len, TableRow(s).code) in m;
    }
  }

  /** Reads on from a partial code, then checks the padding. */
  function DecodeBits(b: bits, code: nat, len: nat): (r: Result<bytes, HuffmanError>)
    decreases |b|
  {
    if b == [] then
      if len > 7 || (len > 0 && code != Pow2(len) - 1) then Err(InvalidHuffman) else Ok([])
    else
      var code', len' := 2 * code + b[0], len + 1;
      if len' > MAX_LEN then Err(InvalidHuffman)
      else
        match Lookup(len', code')
        case None => DecodeBits(b[1..], code', len')
        case Some(sym) =>
          if sym >= EOS then Err(InvalidHuffman)
          else
            match DecodeBits(b[1..], 0, 0)
            case Ok(rest) => Ok([sym] + rest)
            case Err(e) => Err(e)
  }

  function Decode(input: bytes): (r: Result<bytes, HuffmanError>)
  {
    DecodeBits(ToBits(input), 0, 0)
  }

  /** A partial code that no symbol has matched: it lies past every code of its length. */
  predicate Open(code: nat, len: nat) {
    len <= MAX_LEN && NextCode(len) <= code < Pow2(len)
  }

  /** An open code is shorter than 30 bits: the rejection of longer ones is never reached. */
  lemma OpenIsShort(code: nat, len: nat)
    requires Open(code, len)
    ensures len < MAX_LEN
  {
    Tiling(0);
    PowOfMaxLen();
  }

  /** One more bit either completes a symbol or leaves the code open. */
  lemma OpenStep(code: nat, len: nat, b: bit)
    requires Open(code, len)
    ensures len < MAX_LEN
    ensures Lookup(len + 1, 2 * code + b).None? <==> Open(2 * code + b, len + 1)
  {
    OpenIsShort(code, len);
    Tiling(len);
  }

  /** One round of the loop: a longer open code, a symbol, or EOS. */
  lemma DecodeRound(b: bits, code: nat, len: nat)
    requires b != [] && Open(code, len)
    ensures
      var code', len' := 2 * code + b[0], len + 1;
      && len' <= MAX_LEN
      && (Lookup(len', code').None? ==> Open(code', len'))
      && DecodeBits(b, code, len) ==
         match Lookup(len', code')
         case None => DecodeBits(b[1..], code', len')
         case Some(sym) => if sym >= EOS then Err(InvalidHuffman) else Prepend([sym], DecodeBits(b[1..], 0, 0))
  {
    hide TableRow, SymbolAt, FirstCode, Count;
    OpenStep(code, len, b[0]);
  }

  /** The padding check at the end of the input. */
  lemma DecodeEnd(code: nat, len: nat)
    ensures DecodeBits([], code, len) ==
            if len > 7 || (len > 0 && code != Pow2(len) - 1) then Err(InvalidHuffman) else Ok([])
  {
  }

  lemma OpenPrefix(code: nat, len: nat)
    requires 0 < len <= MAX_LEN && FirstCode(len) <= code < Pow2(len)
    ensures Open(code / 2, len - 1)
  {
    Tiling(len - 1);
  }

  lemma TableCodeFits(sym: nat)
    requires sym <= EOS
    ensures TableRow(sym).code < Pow2(TableRow(sym).len)
  {
    EveryRowPlaced(sym);
    NextCodeFits(TableRow(sym).len);
  }

  lemma {:induction false} NextCodeFits(len: nat)
    requires len <= MAX_LEN
    ensures NextCode(len) <= Pow2(len)
    decreases MAX_LEN - len
  {
    if len == MAX_LEN {
      Tiling(0);
      PowOfMaxLen();
    } else {
      NextCodeFits(len + 1);
      Tiling(len);
    }
  }

  /** Reading an open code from scratch leaves the decoder holding it. */
  lemma {:induction false} Walk(code: nat, len: nat, rest: bits)
    requires Open(code, len)
    ensures DecodeBits(CodeBits(code, len) + rest, 0, 0) == DecodeBits(rest, code, len)
    decreases len
  {
    hide TableRow, FirstCode, Count, Lookup, DecodeBits;
    if len == 0 {
      assert CodeBits(code, len) + rest == rest;
    } else {
      Tiling(len - 1);
      OpenPrefix(code, len);
      var last := [code % 2] + rest;
      assert CodeBits(code, len) + rest == CodeBits(code / 2, len - 1) + last;
      Walk(code / 2, len - 1, last);
      OpenStep(code / 2, len - 1, code % 2);
      DecodeRound(last, code / 2, len - 1);
      assert last[1..] == rest;
    }
  }

  /** Reading the code of a symbol yields it: no shorter code gets in the way. */
  lemma ReadSymbol(sym: byte, rest: bits)
    ensures var row := TableRow(sym);
            DecodeBits(CodeBits(row.code, row.len) + rest, 0, 0) ==
            match DecodeBits(rest, 0, 0)
            case Ok(s) => Ok([sym] + s)
            case Err(e) => Err(e)
  {
    hide TableRow, SymbolAt, FirstCode, Count, Lookup, DecodeBits;
    var row := TableRow(sym);
    EveryRowPlaced(sym);
    TableCodeFits(sym);
    OpenPrefix(row.code, row.len);
    var last := [row.code % 2] + rest;
    assert CodeBits(row.code, row.len) + rest == CodeBits(row.code / 2, row.len - 1) + last;
    Walk(row.code / 2, row.len - 1, last);
    DecodeRound(last, row.code / 2, row.len - 1);
    LookupIsTable(row.len, row.code, sym);
    assert last[1..] == rest;
  }

  lemma PaddingDecodes(p: nat)
    requires p < 8
    ensures DecodeBits(Ones(p), 0, 0) == Ok([])
  {
    SmallPowers();
    assert Pow2(4) == 16 && Pow2(3) == 8;
    assert Open(Pow2(p) - 1, p);
    Walk(Pow2(p) - 1, p, []);
    OnesCode(p);
    assert Ones(p) + [] == Ones(p);
  }

  lemma {:induction false} DecodeSymbolBits(s: bytes, p: nat)
    requires p < 8
    ensures DecodeBits(SymbolBits(s) + Ones(p), 0, 0) == Ok(s)
  {
    hide TableRow, SymbolAt, FirstCode, Count;
    if s == [] {
      PaddingDecodes(p);
      assert SymbolBits(s) + Ones(p) == Ones(p);
    } else {
      DecodeSymbolBits(s[1..], p);
      assert s == [s[0]] + s[1..];
      var row := TableRow(s[0]);
      ReadSymbol(s[0], SymbolBits(s[1..]) + Ones(p));
      assert SymbolBits(s) + Ones(p) == CodeBits(row.code, row.len) + (SymbolBits(s[1..]) + Ones(p));
    }
  }

  /** Whatever was encoded is decoded. */
  lemma DecodeInvertsEncode(s: bytes)
    ensures Decode(Encode(s)) == Ok(s)
  {
    hide SymbolBits, DecodeBits, Pack;
    var b := SymbolBits(s);
    UnpackPack(Padded(b));
    DecodeSymbolBits(s, PadLength(|b|));
  }

  /** An accepted bit string is the codes of its symbols and at most seven ones. */
  lemma {:induction false} AcceptedBits(b: bits, code: nat, len: nat, s: bytes) returns (p: nat)
    requires Open(code, len) && DecodeBits(b, code, len) == Ok(s)
    ensures p < 8 && CodeBits(code, len) + b == SymbolBits(s) + Ones(p)
    decreases |b|
  {
    hide TableRow, FirstCode, Count, DecodeBits, Lookup;
    if b == [] {
      DecodeEnd(code, len);
      OnesCode(len);
      p := len;
    } else {
      var code', len' := 2 * code + b[0], len + 1;
      DecodeRound(b, code, len);
      assert CodeBits(code', len') == CodeBits(code, len) + [b[0]];
      assert CodeBits(code, len) + b == CodeBits(code', len') + b[1..];
      if Lookup(len', code').None? {
        p := AcceptedBits(b[1..], code', len', s);
      } else {
        LookupIsTable(len', code', Lookup(len', code').value);
        Tiling(0);
        p := AcceptedBits(b[1..], 0, 0, s[1..]);
        assert CodeBits(0, 0) + b[1..] == b[1..];
        assert CodeBits(code', len') + b[1..] == SymbolBits(s) + Ones(p);
      }
    }
  }

  /** Nothing but an encoding is accepted, so every byte string has one accepted form. */
  lemma EncodeInvertsDecode(x: bytes, s: bytes)
    requires Decode(x) == Ok(s)
    ensures x == Encode(s)
  {
    hide TableRow, SymbolAt, FirstCode, Count;
    hide DecodeBits, SymbolBits, CodeBits;
    Tiling(0);
    var p := AcceptedBits(ToBits(x), 0, 0, s);
    assert ToBits(x) == SymbolBits(s) + Ones(p);
    PadUnique(|SymbolBits(s)|, p);
    PackUnpack(x);
  }

  /** The decoder accepts exactly the encodings. */
  lemma AcceptsExactlyEncodings(x: bytes)
    ensures Decode(x).Ok? <==> exists s :: Encode(s) == x
  {
    if Decode(x).Ok? {
      EncodeInvertsDecode(x, Decode(x).value);
    }
    forall s | Encode(s) == x
      ensures Decode(x).Ok?
    {
      DecodeInvertsEncode(s);
    }
  }

  // ---- The decoding loop ----

  lemma {:induction false} BitAt(c: nat, len: nat, i: nat)
    requires i < len
    ensures CodeBits(c, len)[i] == c / Pow2(len - 1 - i) % 2
  {
    if i < len - 1 {
      BitAt(c / 2, len - 1, i);
      HalveThenDivide(c, Pow2(len - 2 - i));
    }
  }

  method DecodeHuffman(input: bytes) returns (r: Result<bytes, HuffmanError>)
    ensures r == Decode(input)
  {
    hide TableRow, FirstCode, Count, Lookup, DecodeBits, CodeMap, CodeBits;
    var m := CodeMap();
    var out: bytes := [];
    var code: nat, len: nat := 0, 0;
    Tiling(0);
    assert input[0..] == input;
    PrependNothing(Decode(input));
    for i := 0 to |input|
      invariant Open(code, len)
      invariant Decode(input) == Prepend(out, DecodeBits(ToBits(input[i..]), code, len))
    {
      ghost var rest := ToBits(input[i + 1..]);
      ghost var all := CodeBits(input[i], 8) + rest;
      assert input[i..][1..] == input[i + 1..];
      var k := 8;
      while k > 0
        invariant 0 <= k <= 8 && Open(code, len)
        invariant Decode(input) == Prepend(out, DecodeBits(all[8 - k..], code, len))
      {
        k := k - 1;
        ghost var before := all[7 - k..];
        BitAt(input[i], 8, 7 - k);
        DecodeRound(before, code, len);
        assert before[1..] == all[8 - k..];
        code := 2 * code + input[i] / Pow2(k) % 2;
        len := len + 1;
        if len > MAX_LEN {
          // Never taken: an open code has room for one more bit.
          assert false;
          return Err(InvalidHuffman);
        }
        CodeMapGet(len, code);
        if (len, code) in m {
          var sym := m[(len, code)];
          LookupIsTable(len, code, sym);
          if sym == EOS {
            return Err(InvalidHuffman);
          }
          PrependAll(out, [sym], DecodeBits(all[8 - k..], 0, 0));
          out := out + [sym];
          code, len := 0, 0;
        }
      }
      assert all[8..] == rest;
    }
    assert input[|input|..] == [];
    DecodeEnd(code, len);
    if len > 7 {
      return Err(InvalidHuffman);
    }
    if len > 0 {
      var allOnes := Pow2(len) - 1;
      if code != allOnes {
        return Err(InvalidHuffman);
      }
    }
    assert out + [] == out;
    return Ok(out);
  }
}
