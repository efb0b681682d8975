/** QPACK field sections, static table only (section 4.5 of RFC 9204). */
module Qpack {
  import opened Arith
  import opened Bytes
  import opened PrefixedInt
  import Huffman

  datatype EdgeError = MalformedFieldSection | InvalidHuffman

  datatype Field = Field(name: bytes, value: bytes)

  // ---- The static table ----

  datatype StaticRow = StaticRow(index: nat, name: string, value: string)

  /** The part of the static table (Appendix A of RFC 9204) the edge knows. */
  const STATIC_TABLE: seq<StaticRow> := [
    StaticRow(0, ":authority", ""),
    StaticRow(1, ":path", "/"),
    StaticRow(15, ":method", "CONNECT"),
    StaticRow(16, ":method", "DELETE"),
    StaticRow(17, ":method", "GET"),
    StaticRow(18, ":method", "HEAD"),
    StaticRow(19, ":method", "OPTIONS"),
    StaticRow(20, ":method", "POST"),
    StaticRow(21, ":method", "PUT"),
    StaticRow(22, ":scheme", "http"),
    StaticRow(23, ":scheme", "https"),
    StaticRow(24, ":status", "103"),
    StaticRow(25, ":status", "200"),
    StaticRow(26, ":status", "304"),
    StaticRow(27, ":status", "404"),
    StaticRow(28, ":status", "503"),
    StaticRow(52, "content-type", "text/html; charset=utf-8"),
    StaticRow(63, ":status", "100"),
    StaticRow(64, ":status", "204"),
    StaticRow(65, ":status", "206"),
    StaticRow(66, ":status", "302"),
    StaticRow(67, ":status", "400"),
    StaticRow(68, ":status", "403"),
    StaticRow(69, ":status", "421"),
    StaticRow(70, ":status", "425"),
    StaticRow(71, ":status", "500"),
    StaticRow(84, "authorization", "")
  ]

  /** The bytes of an ASCII text. */
  function Ascii(s: string): (b: bytes)
    ensures |b| == |s|
  {
    seq(|s|, i requires 0 <= i < |s| => s[i] as int % 256)
  }

  function RowField(row: StaticRow): (f: Field)
  {
    Field(Ascii(row.name), Ascii(row.value))
  }

  /** The first row from `k` on with this index. */
  function FindIndex(index: nat, k: nat): (r: Option<StaticRow>)
    decreases |STATIC_TABLE| - k
  {
    if k >= |STATIC_TABLE| then None
    else if STATIC_TABLE[k].index == index then Some(STATIC_TABLE[k])
    else FindIndex(index, k + 1)
  }

  /** The pair an index names; an index outside the table names an empty placeholder. */
  function StaticField(index: nat): (f: Field)
  {
    match FindIndex(index, 0)
    case Some(row) => RowField(row)
    case None => Field([], [])
  }

  /** The first row from `k` on with this name and value. */
  function FindPair(f: Field, k: nat): (r: Option<StaticRow>)
    decreases |STATIC_TABLE| - k
  {
    if k >= |STATIC_TABLE| then None
    else if RowField(STATIC_TABLE[k]) == f then Some(STATIC_TABLE[k])
    else FindPair(f, k + 1)
  }

  /** The first row from `k` on with this name. */
  function FindName(name: bytes, k: nat): (r: Option<StaticRow>)
    decreases |STATIC_TABLE| - k
  {
    if k >= |STATIC_TABLE| then None
    else if Ascii(STATIC_TABLE[k].name) == name then Some(STATIC_TABLE[k])
    else FindName(name, k + 1)
  }

  // ---- Reading ----

  /** A string literal, raw or Huffman-coded, and the bytes it took. */
  function ReadString(input: bytes, p: nat): (r: Result<(bytes, nat), EdgeError>)
    requires 1 <= p <= 7
    ensures r.Ok? ==> 0 < r.value.1 <= |input|
  {
    ReadUsed(input, p);
    match Read(input, p)
    case None => Err(MalformedFieldSection)
    case Some((len, n)) =>
      if |input| < n + len then Err(MalformedFieldSection)
      else if input[0] / Pow2(p) % 2 == 1 then
        match Huffman.Decode(input[n..n + len])
        case Ok(s) => Ok((s, n + len))
        case Err(_) => Err(InvalidHuffman)
      else Ok((input[n..n + len], n + len))
  }

  /** One field line at the front of `rest`, and the bytes it took. */
  function ReadLine(rest: bytes): (r: Result<(Field, nat), EdgeError>)
    requires rest != []
    ensures r.Ok? ==> 0 < r.value.1 <= |rest|
  {
    ReadUsed(rest, 6);
    ReadUsed(rest, 4);
    if rest[0] >= 0x80 then
      if rest[0] / 0x40 % 2 == 0 then Err(MalformedFieldSection)
      else
        match Read(rest, 6)
        case None => Err(MalformedFieldSection)
        case Some((index, used)) => Ok((StaticField(index), used))
    else if rest[0] / 0x40 % 2 == 1 then
      if rest[0] / 0x10 % 2 == 0 then Err(MalformedFieldSection)
      else
        match Read(rest, 4)
        case None => Err(MalformedFieldSection)
        case Some((index, used)) =>
          match ReadString(rest[used..], 7)
          case Err(e) => Err(e)
          case Ok((value, vused)) => Ok((Field(StaticField(index).name, value), used + vused))
    else if rest[0] / 0x20 % 2 == 1 then
      match ReadString(rest, 3)
      case Err(e) => Err(e)
      case Ok((name, nused)) =>
        match ReadString(rest[nused..], 7)
        case Err(e) => Err(e)
        case Ok((value, vused)) => Ok((Field(name, value), nused + vused))
    else Err(MalformedFieldSection)
  }

  function ReadLines(rest: bytes): (r: Result<seq<Field>, EdgeError>)
    decreases |rest|
  {
    if rest == [] then Ok([])
    else
      match ReadLine(rest)
      case Err(e) => Err(e)
      case Ok((f, used)) =>
        match ReadLines(rest[used..])
        case Err(e) => Err(e)
        case Ok(fs) => Ok([f] + fs)
  }

  /** A whole section: Required Insert Count (which must be zero), Base, then the lines. */
  function Decode(input: bytes): (r: Result<seq<Field>, EdgeError>)
  {
    ReadUsed(input, 8);
    match Read(input, 8)
    case None => Err(MalformedFieldSection)
    case Some((ric, n1)) =>
      if ric != 0 then Err(MalformedFieldSection)
      else
        ReadUsed(input[n1..], 7);
        match Read(input[n1..], 7)
        case None => Err(MalformedFieldSection)
        case Some((_, n2)) => ReadLines(input[n1 + n2..])
  }

  lemma ReadLinesRound(rest: bytes, fields: seq<Field>)
    ensures rest == [] ==> Prepend(fields, ReadLines(rest)) == Ok(fields)
    ensures rest != [] ==>
              var line := ReadLine(rest);
              Prepend(fields, ReadLines(rest)) ==
              if line.Err? then Err(line.error)
              else Prepend(fields + [line.value.0], ReadLines(rest[line.value.1..]))
  {
    hide ReadLine;
    if rest == [] {
      assert fields + [] == fields;
    } else if ReadLine(rest).Ok? {
      var (f, used) := ReadLine(rest).value;
      if ReadLines(rest[used..]).Ok? {
        assert fields + ([f] + ReadLines(rest[used..]).value) == fields + [f] + ReadLines(rest[used..]).value;
      }
    }
  }

  method DecodeFieldSection(input: bytes) returns (r: Result<seq<Field>, EdgeError>)
    ensures r == Decode(input)
  {
    hide ReadLine, ReadLines, Read;
    var ric := ReadPrefixedInt(input, 8);
    if ric.None? || ric.value.0 != 0 {
      return Err(MalformedFieldSection);
    }
    var n1 := ric.value.1;
    ReadUsed(input, 8);
    var base := ReadPrefixedInt(input[n1..], 7);
    if base.None? {
      return Err(MalformedFieldSection);
    }
    ReadUsed(input[n1..], 7);
    var rest := input[n1 + base.value.1..];
    var fields: seq<Field> := [];
    assert Decode(input) == Prepend(fields, ReadLines(rest)) by {
      if ReadLines(rest).Ok? {
        assert [] + ReadLines(rest).value == ReadLines(rest).value;
      }
    }
    while rest != []
      invariant Decode(input) == Prepend(fields, ReadLines(rest))
      decreases |rest|
    {
      ReadLinesRound(rest, fields);
      var line := ReadLine(rest);
      if line.Err? {
        return Err(line.error);
      }
      fields := fields + [line.value.0];
      rest := rest[line.value.1..];
    }
    ReadLinesRound(rest, fields);
    return Ok(fields);
  }

  // ---- What a static-only peer may send ----

  /** A string literal as its sender chose to write it. */
  datatype Literal = Raw(text: bytes) | Coded(text: bytes)

  /** The three representations of a field line; `never` is the never-indexed bit. */
  datatype Line =
    | Indexed(index: nat)
    | NameRef(never: bool, index: nat, value: Literal)
    | Named(never: bool, name: Literal, value: Literal)

  function Payload(l: Literal): (s: bytes)
  {
    match l
    case Raw(text) => text
    case Coded(text) => Huffman.Encode(text)
  }

  /** The flag byte of a literal: the Huffman flag sits just above the length prefix. */
  function LiteralFlags(flags: byte, p: nat, coded: bool): (f: byte)
    requires 1 <= p <= 7 && IsFlags(flags, p + 1)
    ensures IsFlags(f, p)
  {
    FlagBit(flags, p);
    if coded then flags + Pow2(p) else flags
  }

  function WriteLiteral(flags: byte, p: nat, l: Literal): (s: bytes)
    requires 1 <= p <= 7 && IsFlags(flags, p + 1)
  {
    Write(LiteralFlags(flags, p, l.Coded?), p, |Payload(l)|) + Payload(l)
  }

  /** Lengths and indices a 64-bit peer can hold. */
  predicate LiteralFits(l: Literal) {
    |Payload(l)| < TWO63
  }

  predicate LineFits(l: Line) {
    match l
    case Indexed(index) => index < TWO63
    case NameRef(_, index, value) => index < TWO63 && LiteralFits(value)
    case Named(_, name, value) => LiteralFits(name) && LiteralFits(value)
  }

  function WriteLine(l: Line): (s: bytes)
  {
    SmallPowers();
    match l
    case Indexed(index) => Write(0xc0, 6, index)
    case NameRef(never, index, value) =>
      Write(if never then 0x70 else 0x50, 4, index) + WriteLiteral(0x00, 7, value)
    case Named(never, name, value) =>
      WriteLiteral(if never then 0x30 else 0x20, 3, name) + WriteLiteral(0x00, 7, value)
  }

  function WriteLines(ls: seq<Line>): (s: bytes)
  {
    if ls == [] then [] else WriteLine(ls[0]) + WriteLines(ls[1..])
  }

  /** What a line means. */
  function Meaning(l: Line): (f: Field)
  {
    match l
    case Indexed(index) => StaticField(index)
    case NameRef(_, index, value) => Field(StaticField(index).name, value.text)
    case Named(_, name, value) => Field(name.text, value.text)
  }

  function Meanings(ls: seq<Line>): (fs: seq<Field>)
    ensures |fs| == |ls|
  {
    if ls == [] then [] else [Meaning(ls[0])] + Meanings(ls[1..])
  }

  /** The bit just above the length prefix is free for the Huffman flag. */
  lemma FlagBit(flags: byte, p: nat)
    requires 1 <= p <= 7 && IsFlags(flags, p + 1)
    ensures IsFlags(flags, p)
    ensures flags + Pow2(p) < 256 && IsFlags(flags + Pow2(p), p)
  {
    hide Pow2;
    var m := Pow2(p);
    PowSucc(p);
    FirstByte(flags, p + 1, m);
    assert flags == 2 * m * (flags / (2 * m));
    assert flags == m * (2 * (flags / (2 * m)));
    assert flags + m == m * (2 * (flags / (2 * m)) + 1);
    MultipleMod(m, 2 * (flags / (2 * m)));
    MultipleMod(m, 2 * (flags / (2 * m)) + 1);
  }

  lemma MultipleMod(m: nat, k: nat)
    requires m > 0
    ensures m * k % m == 0
  {
    DivUnique(m * k, m, k);
  }

  lemma WriteFirst(flags: byte, p: nat, value: nat)
    requires IsPrefix(p) && IsFlags(flags, p)
    ensures flags <= Write(flags, p, value)[0] <= flags + Mask(p)
  {
  }

  /** The flag is read where it was written, whatever length shares its byte. */
  lemma HuffmanFlag(flags: byte, p: nat, coded: bool, first: byte)
    requires 1 <= p <= 7 && IsFlags(flags, p + 1)
    requires LiteralFlags(flags, p, coded) <= first <= LiteralFlags(flags, p, coded) + Mask(p)
    ensures first / Pow2(p) % 2 == if coded then 1 else 0
  {
    hide Pow2;
    var m, c := Pow2(p), if coded then 1 else 0;
    PowSucc(p);
    OddQuotient(flags / (2 * m), m, c, flags, first);
  }

  lemma OddQuotient(k: nat, m: nat, c: nat, flags: nat, first: nat)
    requires m > 0 && c < 2 && flags % (2 * m) == 0 && k == flags / (2 * m)
    requires flags + c * m <= first < flags + c * m + m
    ensures first / m % 2 == c
  {
    assert flags == 2 * m * k;
    assert m * (2 * k + c) == 2 * m * k + c * m;
    assert m * (2 * k + c + 1) == m * (2 * k + c) + m;
    DivUnique(first, m, 2 * k + c);
  }

  /** Whatever follows, a literal is read back with the bytes it took. */
  lemma ReadBackLiteral(flags: byte, p: nat, l: Literal, tail: bytes)
    requires 1 <= p <= 7 && IsFlags(flags, p + 1) && LiteralFits(l)
    ensures ReadString(WriteLiteral(flags, p, l) + tail, p) == Ok((l.text, |WriteLiteral(flags, p, l)|))
  {
    hide Read, Write, Huffman.Decode, Huffman.Encode, Pow2;
    var f := LiteralFlags(flags, p, l.Coded?);
    var len, payload := Write(f, p, |Payload(l)|), Payload(l);
    var s := WriteLiteral(flags, p, l) + tail;
    assert s == len + (payload + tail);
    RoundTrip(f, p, |payload|, payload + tail);
    assert s[|len|..|len| + |payload|] == payload;
    WriteFirst(f, p, |payload|);
    HuffmanFlag(flags, p, l.Coded?, s[0]);
    if l.Coded? {
      Huffman.DecodeInvertsEncode(l.text);
    }
  }

  lemma LiteralFirst(flags: byte, p: nat, l: Literal)
    requires 1 <= p <= 7 && IsFlags(flags, p + 1)
    ensures |WriteLiteral(flags, p, l)| > 0
    ensures flags <= WriteLiteral(flags, p, l)[0] < flags + 2 * Pow2(p)
  {
    WriteFirst(LiteralFlags(flags, p, l.Coded?), p, |Payload(l)|);
  }

  lemma ReadBackIndexed(index: nat, tail: bytes)
    requires index < TWO63
    ensures var w := WriteLine(Indexed(index));
            |w| > 0 && ReadLine(w + tail) == Ok((StaticField(index), |w|))
  {
    SmallPowers();
    hide Read, Write, ReadString, Pow2, StaticField, Huffman.Decode;
    WriteFirst(0xc0, 6, index);
    RoundTrip(0xc0, 6, index, tail);
  }

  lemma ReadBackNameRef(never: bool, index: nat, value: Literal, tail: bytes)
    requires index < TWO63 && LiteralFits(value)
    ensures var w := WriteLine(NameRef(never, index, value));
            |w| > 0 && ReadLine(w + tail) == Ok((Field(StaticField(index).name, value.text), |w|))
  {
    SmallPowers();
    hide Read, Write, ReadString, WriteLiteral, Pow2, StaticField, Payload;
    var f := if never then 0x70 else 0x50;
    var w, v := Write(f, 4, index), WriteLiteral(0x00, 7, value);
    var s := WriteLine(NameRef(never, index, value)) + tail;
    WriteFirst(f, 4, index);
    assert s == w + (v + tail);
    RoundTrip(f, 4, index, v + tail);
    CutPrefix(w, v + tail);
    ReadBackLiteral(0x00, 7, value, tail);
  }

  lemma ReadBackNamed(never: bool, name: Literal, value: Literal, tail: bytes)
    requires LiteralFits(name) && LiteralFits(value)
    ensures var w := WriteLine(Named(never, name, value));
            |w| > 0 && ReadLine(w + tail) == Ok((Field(name.text, value.text), |w|))
  {
    SmallPowers();
    hide Read, Write, ReadString, WriteLiteral, Pow2, StaticField, Payload;
    var f := if never then 0x30 else 0x20;
    var n, v := WriteLiteral(f, 3, name), WriteLiteral(0x00, 7, value);
    var s := WriteLine(Named(never, name, value)) + tail;
    LiteralFirst(f, 3, name);
    assert s == n + (v + tail);
    ReadBackLiteral(f, 3, name, v + tail);
    CutPrefix(n, v + tail);
    ReadBackLiteral(0x00, 7, value, tail);
  }

  /** Whatever follows, a line is read back as what it means. */
  lemma ReadBackLine(l: Line, tail: bytes)
    requires LineFits(l)
    ensures |WriteLine(l)| > 0
    ensures ReadLine(WriteLine(l) + tail) == Ok((Meaning(l), |WriteLine(l)|))
  {
    hide ReadLine, WriteLine, StaticField, Payload;
    match l
    case Indexed(index) => ReadBackIndexed(index, tail);
    case NameRef(never, index, value) => ReadBackNameRef(never, index, value, tail);
    case Named(never, name, value) => ReadBackNamed(never, name, value, tail);
  }

  lemma {:induction false} ReadBackLines(ls: seq<Line>)
    requires forall i | 0 <= i < |ls| :: LineFits(ls[i])
    ensures ReadLines(WriteLines(ls)) == Ok(Meanings(ls))
  {
    hide ReadLine, WriteLine, Meaning;
    if ls != [] {
      ReadBackLine(ls[0], WriteLines(ls[1..]));
      CutPrefix(WriteLine(ls[0]), WriteLines(ls[1..]));
      ReadBackLines(ls[1..]);
    }
  }

  /** The section prefix: no dynamic table, any sign and delta base. */
  function SectionPrefix(sign: bool, base: nat): (s: bytes)
  {
    SmallPowers();
    [0x00] + Write(if sign then 0x80 else 0x00, 7, base)
  }

  /** A conforming static-only section decodes to what its lines mean, whichever representations were picked. */
  lemma DecodeAnyRepresentation(sign: bool, base: nat, ls: seq<Line>)
    requires base < TWO63
    requires forall i | 0 <= i < |ls| :: LineFits(ls[i])
    ensures Decode(SectionPrefix(sign, base) + WriteLines(ls)) == Ok(Meanings(ls))
  {
    ReadBackLines(ls);
    DecodeSkipsPrefix(sign, base, WriteLines(ls));
  }

  lemma DecodeSkipsPrefix(sign: bool, base: nat, lines: bytes)
    requires base < TWO63
    ensures Decode(SectionPrefix(sign, base) + lines) == ReadLines(lines)
  {
    SmallPowers();
    hide Write, ReadLines, ReadMore;
    var f := if sign then 0x80 else 0x00;
    var w := Write(f, 7, base);
    var s := SectionPrefix(sign, base) + lines;
    assert s[0] == 0 && s[1..] == w + lines;
    assert Read(s, 8) == Some((0, 1));
    hide Read, Pow2;
    RoundTrip(f, 7, base, lines);
    assert s[1 + |w|..] == lines;
  }

  // ---- The encoder ----

  /** The representation the encoder picks. */
  function Choose(f: Field): (l: Line)
  {
    match FindPair(f, 0)
    case Some(row) => Indexed(row.index)
    case None =>
      match FindName(f.name, 0)
      case Some(row) => NameRef(false, row.index, Raw(f.value))
      case None => Named(false, Raw(f.name), Raw(f.value))
  }

  function Encode(fields: seq<Field>): (s: bytes)
  {
    [0x00, 0x00] + WriteLines(Lines(fields))
  }

  function Lines(fields: seq<Field>): (ls: seq<Line>)
    ensures |ls| == |fields|
    ensures forall i | 0 <= i < |ls| :: ls[i] == Choose(fields[i])
  {
    if fields == [] then [] else [Choose(fields[0])] + Lines(fields[1..])
  }

  method EncodeFieldSection(fields: seq<Field>) returns (out: bytes)
    ensures out == Encode(fields)
  {
    hide Choose, WriteLine;
    out := [0x00, 0x00];
    assert fields[0..] == fields;
    for i := 0 to |fields|
      invariant Encode(fields) == out + WriteLines(Lines(fields[i..]))
    {
      assert fields[i..][0] == fields[i] && fields[i..][1..] == fields[i + 1..];
      ghost var line := WriteLine(Choose(fields[i]));
      assert out + WriteLines(Lines(fields[i..])) == (out + line) + WriteLines(Lines(fields[i + 1..]));
      out := WriteField(out, fields[i]);
    }
  }

  /** One round of the encoding loop. */
  method WriteField(out: bytes, f: Field) returns (out': bytes)
    ensures out' == out + WriteLine(Choose(f))
  {
    SmallPowers();
    hide Write, Pow2, FindPair, FindName;
    var pair := FindPair(f, 0);
    if pair.Some? {
      out' := WritePrefixedInt(out, 0xc0, 6, pair.value.index);
      return;
    }
    var named := FindName(f.name, 0);
    if named.Some? {
      out' := WritePrefixedInt(out, 0x50, 4, named.value.index);
    } else {
      out' := WritePrefixedInt(out, 0x20, 3, |f.name|);
      out' := out' + f.name;
    }
    out' := WriteString(out', f.value);
  }

  method WriteString(out: bytes, s: bytes) returns (out': bytes)
    ensures out' == out + WriteLiteral(0x00, 7, Raw(s))
  {
    SmallPowers();
    out' := WritePrefixedInt(out, 0x00, 7, |s|);
    out' := out' + s;
  }

  /** The table lists its indices in increasing order. */
  lemma {:induction false} IndicesIncrease(j: nat, k: nat)
    requires j < k < |STATIC_TABLE|
    ensures STATIC_TABLE[j].index < STATIC_TABLE[k].index
    decreases k
  {
    if j + 1 < k {
      IndicesIncrease(j, k - 1);
    }
  }

  lemma {:induction false} FindIndexAt(j: nat, k: nat)
    requires j <= k < |STATIC_TABLE|
    ensures FindIndex(STATIC_TABLE[k].index, j) == Some(STATIC_TABLE[k])
    decreases k - j
  {
    hide STATIC_TABLE;
    if j < k {
      IndicesIncrease(j, k);
      FindIndexAt(j + 1, k);
    }
  }

  lemma SmallIndices(k: nat)
    ensures k < |STATIC_TABLE| ==> STATIC_TABLE[k].index < TWO63
  {
    if k < |STATIC_TABLE| - 1 {
      IndicesIncrease(k, |STATIC_TABLE| - 1);
    }
  }

  lemma {:induction false} FoundPair(f: Field, k: nat)
    ensures FindPair(f, k).Some? ==>
              var row := FindPair(f, k).value;
              RowField(row) == f && StaticField(row.index) == f && row.index < TWO63
    decreases |STATIC_TABLE| - k
  {
    SmallIndices(k);
    hide STATIC_TABLE, Ascii;
    if k < |STATIC_TABLE| {
      FindIndexAt(0, k);
      FoundPair(f, k + 1);
    }
  }

  lemma {:induction false} FoundName(name: bytes, k: nat)
    ensures FindName(name, k).Some? ==>
              var row := FindName(name, k).value;
              StaticField(row.index).name == name && row.index < TWO63
    decreases |STATIC_TABLE| - k
  {
    SmallIndices(k);
    hide STATIC_TABLE, Ascii;
    if k < |STATIC_TABLE| {
      FindIndexAt(0, k);
      FoundName(name, k + 1);
    }
  }

  /** Names and values a 64-bit machine can hold. */
  predicate FieldFits(f: Field) {
    |f.name| < TWO63 && |f.value| < TWO63
  }

  /** The representation picked for a field means that field. */
  lemma ChooseMeans(f: Field)
    requires FieldFits(f)
    ensures Meaning(Choose(f)) == f && LineFits(Choose(f))
  {
    hide FindPair, FindName, StaticField;
    FoundPair(f, 0);
    FoundName(f.name, 0);
  }

  lemma {:induction false} LinesMean(fields: seq<Field>)
    requires forall i | 0 <= i < |fields| :: FieldFits(fields[i])
    ensures Meanings(Lines(fields)) == fields
  {
    hide Choose, Meaning;
    if fields != [] {
      ChooseMeans(fields[0]);
      LinesMean(fields[1..]);
    }
  }

  /** Every field list comes back from its encoding. */
  lemma FieldSectionRoundTrip(fields: seq<Field>)
    requires forall i | 0 <= i < |fields| :: FieldFits(fields[i])
    ensures Decode(Encode(fields)) == Ok(fields)
  {
    hide Choose, Decode, WriteLines;
    forall i | 0 <= i < |fields|
      ensures LineFits(Lines(fields)[i])
    {
      ChooseMeans(fields[i]);
    }
    LinesMean(fields);
    DecodeAnyRepresentation(false, 0, Lines(fields));
    PlainPrefix();
  }

  lemma PlainPrefix()
    ensures SectionPrefix(false, 0) == [0x00, 0x00]
  {
    SmallPowers();
  }

  /** A section that needs the dynamic table is refused, whatever follows its first number. */
  lemma DynamicTableRefused(ric: nat, tail: bytes)
    requires 0 < ric < U64
    ensures Decode(Write(0x00, 8, ric) + tail) == Err(MalformedFieldSection)
  {
    hide Read, Write;
    FlagsOfCount();
    RoundTrip(0x00, 8, ric, tail);
  }

  lemma FlagsOfCount()
    ensures IsFlags(0x00, 8)
  {
  }
}
