/** The static table spelled out, what its lines decode to byte by byte, and what lines outside it do to a request. */
module StaticLines {
  import opened Arith
  import opened Bytes
  import opened PrefixedInt
  import opened Qpack
  import Masque

  /** Name and value of the entries of Appendix A of RFC 9204 that the edge resolves. */
  function Entry(index: nat): (e: Option<(string, string)>)
  {
    match index
    case 0 => Some((":authority", ""))
    case 1 => Some((":path", "/"))
    case 15 => Some((":method", "CONNECT"))
    case 16 => Some((":method", "DELETE"))
    case 17 => Some((":method", "GET"))
    case 18 => Some((":method", "HEAD"))
    case 19 => Some((":method", "OPTIONS"))
    case 20 => Some((":method", "POST"))
    case 21 => Some((":method", "PUT"))
    case 22 => Some((":scheme", "http"))
    case 23 => Some((":scheme", "https"))
    case 24 => Some((":status", "103"))
    case 25 => Some((":status", "200"))
    case 26 => Some((":status", "304"))
    case 27 => Some((":status", "404"))
    case 28 => Some((":status", "503"))
    case 52 => Some(("content-type", "text/html; charset=utf-8"))
    case 63 => Some((":status", "100"))
    case 64 => Some((":status", "204"))
    case 65 => Some((":status", "206"))
    case 66 => Some((":status", "302"))
    case 67 => Some((":status", "400"))
    case 68 => Some((":status", "403"))
    case 69 => Some((":status", "421"))
    case 70 => Some((":status", "425"))
    case 71 => Some((":status", "500"))
    case 84 => Some(("authorization", ""))
    case _ => None
  }

  /** Where an entry stands in the table. */
  function Place(index: nat): (k: nat)
  {
    if index < 2 then index
    else if 15 <= index <= 28 then index - 13
    else if index == 52 then 16
    else if 63 <= index <= 71 then index - 46
    else 26
  }

  lemma RowIsEntry(k: nat)
    requires k < |STATIC_TABLE|
    ensures Entry(STATIC_TABLE[k].index) == Some((STATIC_TABLE[k].name, STATIC_TABLE[k].value))
  {
  }

  lemma EntryIsRow(index: nat)
    requires Entry(index).Some?
    ensures Place(index) < |STATIC_TABLE| && STATIC_TABLE[Place(index)].index == index
  {
  }

  /** What an index stands for: its entry, or a field with an empty name and value. */
  function Known(index: nat): (f: Field)
  {
    match Entry(index)
    case Some((name, value)) => Field(Ascii(name), Ascii(value))
    case None => Field([], [])
  }

  lemma {:induction false} FoundIsRow(index: nat, k: nat) returns (j: nat)
    requires FindIndex(index, k).Some?
    ensures k <= j < |STATIC_TABLE| && FindIndex(index, k) == Some(STATIC_TABLE[j]) && STATIC_TABLE[j].index == index
    decreases |STATIC_TABLE| - k
  {
    hide STATIC_TABLE;
    j := k;
    if STATIC_TABLE[k].index != index {
      j := FoundIsRow(index, k + 1);
    }
  }

  /** For every index, listed or not. */
  lemma StaticFieldExact(index: nat)
    ensures StaticField(index) == Known(index)
  {
    hide STATIC_TABLE, Entry, FindIndex;
    if FindIndex(index, 0).Some? {
      var j := FoundIsRow(index, 0);
      RowIsEntry(j);
    } else if Entry(index).Some? {
      EntryIsRow(index);
      FindIndexAt(0, Place(index));
    }
  }

  // ---- Bytes ----

  /** An indexed line is one byte from 0xc0 on below 63, and then 0xff and the excess. */
  lemma IndexedBytes(index: nat, tail: bytes)
    ensures index < 63 ==> ReadLine([0xc0 + index] + tail) == Ok((Known(index), 1))
    ensures 63 <= index < 191 ==> ReadLine([0xff, index - 63] + tail) == Ok((Known(index), 2))
  {
    if index < 191 {
      IndexedWritten(index);
      hide WriteLine, ReadLine, StaticField, Known;
      ReadBackIndexed(index, tail);
      StaticFieldExact(index);
    }
  }

  lemma IndexedWritten(index: nat)
    requires index < 191
    ensures WriteLine(Indexed(index)) == if index < 63 then [0xc0 + index] else [0xff, index - 63]
  {
    SmallPowers();
    assert Mask(6) == 63;
    assert [0xff] + [index - 63] == [0xff, index - 63];
  }

  /** A name reference is 0x50 (or 0x70, never to be indexed) plus the index below 15, and then the value. */
  lemma NameRefBytes(never: bool, index: nat, value: bytes, tail: bytes)
    requires index < 15 && |value| < 127
    ensures var first := (if never then 0x70 else 0x50) + index;
            ReadLine([first, |value|] + value + tail) == Ok((Field(Known(index).name, value), 2 + |value|))
  {
    NameRefWritten(never, index, value);
    hide WriteLine, ReadLine, StaticField, Known;
    ReadBackNameRef(never, index, Raw(value), tail);
    StaticFieldExact(index);
  }

  lemma NameRefWritten(never: bool, index: nat, value: bytes)
    requires index < 15 && |value| < 127
    ensures WriteLine(NameRef(never, index, Raw(value))) ==
            [(if never then 0x70 else 0x50) + index, |value|] + value
  {
    SmallPowers();
    assert Mask(4) == 15 && Mask(7) == 127;
    var first: byte := (if never then 0x70 else 0x50) + index;
    assert WriteLiteral(0x00, 7, Raw(value)) == [|value|] + value;
    assert [first] + ([|value|] + value) == [first, |value|] + value;
  }

  /** The bytes of a short line with a literal name. */
  function NamedLine(never: bool, name: bytes, value: bytes): (line: bytes)
    requires |name| < 7 && |value| < 127
    ensures |line| == 2 + |name| + |value|
  {
    [(if never then 0x30 else 0x20) + |name|] + name + ([|value|] + value)
  }

  /** A literal name is 0x20 (or 0x30) plus its length below 7, the name, and then the value. */
  lemma NamedBytes(never: bool, name: bytes, value: bytes, tail: bytes)
    requires |name| < 7 && |value| < 127
    ensures ReadLine(NamedLine(never, name, value) + tail) == Ok((Field(name, value), 2 + |name| + |value|))
  {
    NamedWritten(never, name, value);
    hide WriteLine, ReadLine, NamedLine;
    ReadBackNamed(never, Raw(name), Raw(value), tail);
  }

  lemma NamedWritten(never: bool, name: bytes, value: bytes)
    requires |name| < 7 && |value| < 127
    ensures WriteLine(Named(never, Raw(name), Raw(value))) == NamedLine(never, name, value)
  {
    SmallPowers();
    assert Mask(3) == 7 && Mask(7) == 127;
    assert WriteLiteral(0x00, 7, Raw(value)) == [|value|] + value;
    assert WriteLiteral(if never then 0x30 else 0x20, 3, Raw(name)) == [(if never then 0x30 else 0x20) + |name|] + name;
  }

  /** Lines that point into the dynamic table are refused by their first byte. */
  lemma DynamicLineRefused(line: bytes)
    requires line != []
    requires 0x80 <= line[0] < 0xc0 || 0x40 <= line[0] < 0x50 || 0x60 <= line[0] < 0x70 || line[0] < 0x20
    ensures ReadLine(line) == Err(MalformedFieldSection)
  {
    hide Read, ReadString, StaticField;
    var b := line[0];
    HighBits(b);
  }

  lemma HighBits(b: byte)
    ensures 0x80 <= b < 0xc0 ==> b / 0x40 % 2 == 0
    ensures 0x40 <= b < 0x50 || 0x60 <= b < 0x70 ==> b / 0x40 % 2 == 1 && b / 0x10 % 2 == 0
    ensures b < 0x20 ==> b / 0x40 % 2 == 0 && b / 0x20 % 2 == 0
  {
  }

  /** The section 00 00 cf is a CONNECT; 00 00 fc, an entry the edge does not resolve, is a nameless field. */
  lemma SectionBytes()
    ensures Decode([0x00, 0x00, 0xcf]) ==
            Ok([Field([58, 109, 101, 116, 104, 111, 100], [67, 79, 78, 78, 69, 67, 84])])
    ensures Decode([0x00, 0x00, 0xfc]) == Ok([Field([], [])])
  {
    OneLineSection(15);
    OneLineSection(60);
    MethodConnect();
  }

  lemma MethodConnect()
    ensures Known(15) == Field([58, 109, 101, 116, 104, 111, 100], [67, 79, 78, 78, 69, 67, 84])
    ensures Known(60) == Field([], [])
  {
    assert Ascii(":method") == [58, 109, 101, 116, 104, 111, 100];
    assert Ascii("CONNECT") == [67, 79, 78, 78, 69, 67, 84];
  }

  lemma OneLineSection(index: nat)
    requires index < 63
    ensures Decode([0x00, 0x00, 0xc0 + index]) == Ok([Known(index)])
  {
    hide ReadLine, Known;
    var line: bytes := [0xc0 + index];
    PlainPrefix();
    assert [0x00, 0x00, 0xc0 + index] == [0x00, 0x00] + line;
    DecodeSkipsPrefix(false, 0, line);
    IndexedBytes(index, []);
    assert line + [] == line && line[1..] == [];
    assert ReadLines([]) == Ok([]) && [Known(index)] + [] == [Known(index)];
  }

  // ---- Lines the edge does not resolve ----

  /** A line by index whose index has no entry. */
  predicate IsForeign(l: Line) {
    (l.Indexed? || l.NameRef?) && Entry(l.index).None?
  }

  /** An unresolved line stands for a field without a name. */
  lemma ForeignMeaning(l: Line)
    requires IsForeign(l)
    ensures Meaning(l) == Field([], if l.Indexed? then [] else l.value.text)
  {
    StaticFieldExact(l.index);
  }

  function WithoutForeign(ls: seq<Line>): (r: seq<Line>)
  {
    if ls == [] then [] else (if IsForeign(ls[0]) then [] else [ls[0]]) + WithoutForeign(ls[1..])
  }

  /** Unresolved lines change no header: every name finds the value it finds without them. */
  lemma {:induction false} ForeignLinesChangeNoHeader(ls: seq<Line>, name: bytes)
    requires name != []
    ensures Masque.Header(Meanings(ls), name) == Masque.Header(Meanings(WithoutForeign(ls)), name)
  {
    hide Meaning, IsForeign;
    if ls != [] {
      ForeignLinesChangeNoHeader(ls[1..], name);
      assert Meanings(ls)[1..] == Meanings(ls[1..]);
      if IsForeign(ls[0]) {
        ForeignMeaning(ls[0]);
        assert WithoutForeign(ls) == WithoutForeign(ls[1..]);
      } else {
        var kept := WithoutForeign(ls);
        assert kept[0] == ls[0] && kept[1..] == WithoutForeign(ls[1..]);
        assert Meanings(kept)[1..] == Meanings(kept[1..]);
      }
    }
  }

  /** And so they do not change what a request is. */
  lemma ForeignLinesChangeNoRequest(ls: seq<Line>)
    ensures Masque.ClassifyFields(Meanings(ls)) == Masque.ClassifyFields(Meanings(WithoutForeign(ls)))
  {
    hide Masque.Header, WithoutForeign, Meanings;
    forall name: bytes | name != []
      ensures Masque.Header(Meanings(ls), name) == Masque.Header(Meanings(WithoutForeign(ls)), name)
    {
      ForeignLinesChangeNoHeader(ls, name);
    }
  }

  // ---- The encoder's choice ----

  lemma {:induction false} PairSearch(f: Field, k: nat)
    ensures FindPair(f, k).Some? ==>
              exists j :: k <= j < |STATIC_TABLE| && FindPair(f, k) == Some(STATIC_TABLE[j]) &&
                          RowField(STATIC_TABLE[j]) == f
    ensures FindPair(f, k).None? ==> forall j | k <= j < |STATIC_TABLE| :: RowField(STATIC_TABLE[j]) != f
    decreases |STATIC_TABLE| - k
  {
    hide STATIC_TABLE, RowField;
    if k < |STATIC_TABLE| {
      PairSearch(f, k + 1);
    }
  }

  lemma {:induction false} NameSearch(name: bytes, k: nat)
    ensures FindName(name, k).Some? ==>
              exists j :: k <= j < |STATIC_TABLE| && FindName(name, k) == Some(STATIC_TABLE[j]) &&
                          RowField(STATIC_TABLE[j]).name == name &&
                          forall i | k <= i < j :: RowField(STATIC_TABLE[i]).name != name
    ensures FindName(name, k).None? ==> forall j | k <= j < |STATIC_TABLE| :: RowField(STATIC_TABLE[j]).name != name
    decreases |STATIC_TABLE| - k
  {
    hide STATIC_TABLE;
    if k < |STATIC_TABLE| {
      NameSearch(name, k + 1);
    }
  }

  lemma RowKnown(k: nat)
    requires k < |STATIC_TABLE|
    ensures Entry(STATIC_TABLE[k].index).Some? && Known(STATIC_TABLE[k].index) == RowField(STATIC_TABLE[k])
  {
    hide STATIC_TABLE;
    RowIsEntry(k);
  }

  lemma KnownRow(index: nat)
    requires Entry(index).Some?
    ensures Place(index) < |STATIC_TABLE| && STATIC_TABLE[Place(index)].index == index
    ensures Known(index) == RowField(STATIC_TABLE[Place(index)])
  {
    hide STATIC_TABLE, Entry;
    EntryIsRow(index);
    RowKnown(Place(index));
  }

  /** A pair with an entry goes out as its index. */
  lemma PairGoesByIndex(index: nat)
    requires Entry(index).Some?
    ensures Choose(Known(index)).Indexed?
    ensures Entry(Choose(Known(index)).index).Some? && Known(Choose(Known(index)).index) == Known(index)
  {
    hide STATIC_TABLE, Entry, RowField, Known;
    KnownRow(index);
    PairSearch(Known(index), 0);
    var j :| 0 <= j < |STATIC_TABLE| && FindPair(Known(index), 0) == Some(STATIC_TABLE[j]) &&
      RowField(STATIC_TABLE[j]) == Known(index);
    RowKnown(j);
  }

  /** A name with an entry whose pair has none goes out by the first entry of that name, with its value raw. */
  lemma NameGoesByReference(f: Field, index: nat)
    requires Entry(index).Some? && Known(index).name == f.name
    requires forall i | Entry(i).Some? :: Known(i) != f
    ensures var l := Choose(f);
            && l.NameRef? && !l.never && l.value == Raw(f.value)
            && Entry(l.index).Some? && Known(l.index).name == f.name && l.index <= index
  {
    hide STATIC_TABLE, Entry, RowField, Known;
    KnownRow(index);
    PairSearch(f, 0);
    NameSearch(f.name, 0);
    forall j | 0 <= j < |STATIC_TABLE|
      ensures RowField(STATIC_TABLE[j]) != f
    {
      RowKnown(j);
    }
    var j :| 0 <= j < |STATIC_TABLE| && FindName(f.name, 0) == Some(STATIC_TABLE[j]) &&
      RowField(STATIC_TABLE[j]).name == f.name && forall i | 0 <= i < j :: RowField(STATIC_TABLE[i]).name != f.name;
    RowKnown(j);
    if j < Place(index) {
      IndicesIncrease(j, Place(index));
    }
  }

  /** Any other field goes out in full, both strings raw. */
  lemma OthersGoInFull(f: Field)
    requires forall i | Entry(i).Some? :: Known(i).name != f.name
    ensures Choose(f) == Named(false, Raw(f.name), Raw(f.value))
  {
    hide STATIC_TABLE, Entry, RowField, Known;
    PairSearch(f, 0);
    NameSearch(f.name, 0);
    forall j | 0 <= j < |STATIC_TABLE|
      ensures RowField(STATIC_TABLE[j]).name != f.name
    {
      RowKnown(j);
    }
  }
}
