/** The capsules a peer may write, and what becomes of them on the way to the UDP socket. */
module CapsuleList {
  import opened Bytes
  import opened Capsules
  import opened FrameReader
  import opened Http3
  import opened UdpPump
  import opened Varint

  /** What a capsule holds. */
  datatype Body =
    | Udp(width: nat, payload: bytes)     // type 0, context 0 in some width, and a UDP payload
    | OtherContext(context: Wide, rest: bytes) // type 0, another context
    | NoContext(value: bytes)             // type 0, too short for its context
    | OtherType(ty: nat, value: bytes)    // any other type

  /** A capsule as written: the widths of its type and length are the writer's choice. */
  datatype Capsule = Capsule(tyWidth: nat, lenWidth: nat, body: Body)

  predicate ValidBody(b: Body) {
    match b
    case Udp(width, _) => width == 1 || width == 2 || width == 4 || width == 8
    case OtherContext(context, _) => Varint.Fits(context) && context.value != 0
    case NoContext(value) => Varint.Decode(value).None?
    case OtherType(ty, _) => ty != 0
  }

  function TypeOf(b: Body): (ty: nat)
  {
    if b.OtherType? then b.ty else 0
  }

  function ValueOf(b: Body): (value: bytes)
    requires ValidBody(b)
  {
    match b
    case Udp(width, payload) => EncodeAs(Wide(0, width)) + payload
    case OtherContext(context, rest) => EncodeAs(context) + rest
    case NoContext(value) => value
    case OtherType(_, value) => value
  }

  predicate ValidCapsule(c: Capsule) {
    && ValidBody(c.body)
    && Varint.Fits(Wide(TypeOf(c.body), c.tyWidth)) && Varint.Fits(Wide(|ValueOf(c.body)|, c.lenWidth))
  }

  function Written(c: Capsule): (s: bytes)
    requires ValidCapsule(c)
  {
    EncodeAs(Wide(TypeOf(c.body), c.tyWidth)) + (EncodeAs(Wide(|ValueOf(c.body)|, c.lenWidth)) + ValueOf(c.body))
  }

  predicate AllValid(cs: seq<Capsule>) {
    forall i | 0 <= i < |cs| :: ValidCapsule(cs[i])
  }

  function AllWritten(cs: seq<Capsule>): (s: bytes)
    requires AllValid(cs)
  {
    if cs == [] then [] else Written(cs[0]) + AllWritten(cs[1..])
  }

  /** The payloads meant for the UDP socket, in order. */
  function UdpPayloads(cs: seq<Capsule>): (out: seq<bytes>)
  {
    if cs == [] then []
    else (if cs[0].body.Udp? then [cs[0].body.payload] else []) + UdpPayloads(cs[1..])
  }

  lemma WideHeader(ty: Wide, len: Wide, rest: bytes)
    requires Varint.Fits(ty) && Varint.Fits(len)
    ensures ReadHeader(EncodeAs(ty) + (EncodeAs(len) + rest)) == Some(Header(ty.value, len.value, ty.width + len.width))
    ensures |EncodeAs(ty)| == ty.width > 0 && |EncodeAs(len)| == len.width
  {
    hide Varint.Decode, EncodeAs;
    RoundTripAs(ty, EncodeAs(len) + rest);
    RoundTripAs(len, rest);
    CutPrefix(EncodeAs(ty), EncodeAs(len) + rest);
  }

  lemma WideFrame(head: bytes, h: Header, value: bytes, tail: bytes)
    requires ReadHeader(head + (value + tail)) == Some(h) && h.used == |head| && h.len == |value|
    ensures ReadFrame(head + (value + tail)) == Some((Frame(h.ty, value), |head| + |value|))
  {
    hide ReadHeader;
    var s := head + (value + tail);
    assert s[|head|..|head| + |value|] == value;
  }

  /** A written capsule is read as its type and value, whatever follows. */
  lemma ReadWritten(c: Capsule, tail: bytes)
    requires ValidCapsule(c)
    ensures |Written(c)| > 0
    ensures ReadFrame(Written(c) + tail) == Some((Frame(TypeOf(c.body), ValueOf(c.body)), |Written(c)|))
  {
    hide EncodeAs, ValueOf, ReadHeader, ReadFrame, Varint.Fits;
    var ty, value := Wide(TypeOf(c.body), c.tyWidth), ValueOf(c.body);
    var len := Wide(|value|, c.lenWidth);
    var a, b := EncodeAs(ty), EncodeAs(len);
    WideHeader(ty, len, value + tail);
    assert a + (b + (value + tail)) == (a + b) + (value + tail);
    WideFrame(a + b, Header(ty.value, len.value, ty.width + len.width), value, tail);
    assert Written(c) + tail == (a + b) + (value + tail);
  }

  /** A capsule forwards its UDP payload, and nothing if it carries none. */
  lemma PayloadOfWritten(b: Body)
    requires ValidBody(b)
    ensures PayloadOf(Frame(TypeOf(b), ValueOf(b))) == if b.Udp? then [b.payload] else []
  {
    hide Varint.Decode, EncodeAs;
    match b
    case Udp(width, payload) =>
      RoundTripAs(Wide(0, width), payload);
      CutPrefix(EncodeAs(Wide(0, width)), payload);
    case OtherContext(context, rest) => RoundTripAs(context, rest);
    case NoContext(_) =>
    case OtherType(_, _) =>
  }

  /** Any capsules, then an unfinished one: exactly the UDP payloads are forwarded, and the unfinished one is kept. */
  lemma {:induction false} ForwardedCapsules(cs: seq<Capsule>, tail: bytes)
    requires AllValid(cs) && ReadFrame(tail).None?
    ensures Forwarded(AllWritten(cs) + tail) == UdpPayloads(cs)
    ensures Remainder(AllWritten(cs) + tail) == tail
  {
    hide ReadFrame, PayloadOf, Written, ValueOf, TypeOf;
    var s := AllWritten(cs) + tail;
    if cs == [] {
      assert s == tail;
    } else {
      var first, rest := Written(cs[0]), AllWritten(cs[1..]) + tail;
      assert s == first + rest;
      ReadWritten(cs[0], rest);
      PayloadOfWritten(cs[0].body);
      CutPrefix(first, rest);
      ForwardedCapsules(cs[1..], tail);
    }
  }

  /** Every stream is some capsules and an unfinished one. */
  lemma {:induction false} EveryStream(s: bytes) returns (cs: seq<Capsule>, tail: bytes)
    ensures AllValid(cs) && ReadFrame(tail).None? && s == AllWritten(cs) + tail
    decreases |s|
  {
    hide ReadFrame, Written, ValidCapsule, AllWritten, AllValid;
    if ReadFrame(s).Some? {
      var n := ReadFrame(s).value.1;
      var c := FirstCapsule(s);
      var more;
      more, tail := EveryStream(s[n..]);
      cs := [c] + more;
      WrittenCons(c, more);
      assert s == s[..n] + s[n..];
    } else {
      cs, tail := [], s;
      NoCapsules();
      assert [] + s == s;
    }
  }

  lemma NoCapsules()
    ensures AllValid([]) && AllWritten([]) == []
  {
  }

  lemma WrittenCons(c: Capsule, more: seq<Capsule>)
    requires ValidCapsule(c) && AllValid(more)
    ensures AllValid([c] + more) && AllWritten([c] + more) == Written(c) + AllWritten(more)
  {
    hide Written, ValidCapsule;
    assert ([c] + more)[1..] == more;
  }

  lemma FirstCapsule(s: bytes) returns (c: Capsule)
    requires ReadFrame(s).Some?
    ensures ValidCapsule(c) && s[..ReadFrame(s).value.1] == Written(c)
  {
    var (f, n) := ReadFrame(s).value;
    var n1, n2 := HeaderWidths(s);
    var body := BodyOf(f);
    c := Capsule(n1, n2, body);
    hide ReadFrame, EncodeAs, Varint.Fits, ValueOf;
  }

  /** The front of a frame is its type and length in some widths, and its payload follows. */
  lemma HeaderWidths(s: bytes) returns (n1: nat, n2: nat)
    requires ReadFrame(s).Some?
    ensures var (f, n) := ReadFrame(s).value;
            && Varint.Fits(Wide(f.ty, n1)) && Varint.Fits(Wide(|f.payload|, n2))
            && s[..n] == EncodeAs(Wide(f.ty, n1)) + (EncodeAs(Wide(|f.payload|, n2)) + f.payload)
  {
    var h := ReadHeader(s).value;
    DecodeBounds(s);
    n1 := Varint.Decode(s).value.1;
    DecodeBounds(s[n1..]);
    n2 := Varint.Decode(s[n1..]).value.1;
    DecodeIsEncodeAs(s);
    DecodeIsEncodeAs(s[n1..]);
    hide Varint.Decode, EncodeAs, Varint.Fits;
    ThreeParts(s, n1, h.used, h.used + h.len);
  }

  lemma ThreeParts(s: bytes, i: nat, j: nat, k: nat)
    requires i <= j <= k <= |s|
    ensures s[i..][..j - i] == s[i..j] && s[..k] == s[..i] + (s[i..j] + s[j..k])
  {
  }

  lemma BodyOf(f: Frame) returns (b: Body)
    ensures ValidBody(b) && TypeOf(b) == f.ty && ValueOf(b) == f.payload
  {
    if f.ty != 0 {
      b := OtherType(f.ty, f.payload);
    } else if Varint.Decode(f.payload).None? {
      b := NoContext(f.payload);
    } else {
      var (v, n) := Varint.Decode(f.payload).value;
      DecodeIsEncodeAs(f.payload);
      DecodeBounds(f.payload);
      hide Varint.Decode, EncodeAs;
      b := if v == 0 then Udp(n, f.payload[n..]) else OtherContext(Wide(v, n), f.payload[n..]);
      assert f.payload == f.payload[..n] + f.payload[n..];
    }
  }

  predicate AllShort(cs: seq<Capsule>)
    requires AllValid(cs)
  {
    forall i | 0 <= i < |cs| :: |Written(cs[i])| <= 16385
  }

  /** Capsules of at most 16385 bytes and an unfinished one of at most 16384 are small enough for every transport. */
  lemma {:induction false} SmallList(cs: seq<Capsule>, tail: bytes)
    requires AllValid(cs) && ReadFrame(tail).None? && |tail| <= 16384 && AllShort(cs)
    ensures SmallCapsules(AllWritten(cs) + tail)
  {
    hide ReadFrame, Written, ValidCapsule;
    var s := AllWritten(cs) + tail;
    if cs == [] {
      assert s == tail;
    } else {
      var first, rest := Written(cs[0]), AllWritten(cs[1..]) + tail;
      assert s == first + rest;
      ReadWritten(cs[0], rest);
      CutPrefix(first, rest);
      SmallList(cs[1..], tail);
    }
  }

  /**
    * From the capsules a peer writes into its tunnel to the UDP socket. If the tunnel is
    * not closed, exactly their UDP payloads were sent, in order; and it is not closed,
    * whatever the transport does, if the capsules are of at most 16385 bytes and the
    * unfinished one of at most 16384.
    */
  method PumpCapsuleList(reader: Reader, ghost cs: seq<Capsule>, ghost tail: bytes)
    returns (ok: bool, sent: seq<bytes>)
    requires reader.Valid() && AllValid(cs) && ReadFrame(tail).None?
    requires reader.Rest().data == AllWritten(cs) + tail
    modifies reader
    ensures ok ==> sent == UdpPayloads(cs)
    ensures AllShort(cs) && |tail| <= 16384 ==> ok
  {
    hide ReadFrame, Written, AllWritten, Forwarded, SmallCapsules, Ahead;
    ForwardedCapsules(cs, tail);
    if AllShort(cs) && |tail| <= 16384 {
      SmallList(cs, tail);
    }
    ghost var chunks;
    ok, sent, chunks := PumpStream(reader);
  }

  /** The capsule 00 03 00 68 69 sends the two bytes 68 69. */
  lemma CapsuleBytes()
    ensures Forwarded([0x00, 0x03, 0x00, 0x68, 0x69]) == [[0x68, 0x69]]
  {
    var s: bytes := [0x00, 0x03, 0x00, 0x68, 0x69];
    var c := Capsule(1, 1, Udp(1, [0x68, 0x69]));
    OneByte(0);
    OneByte(3);
    assert ValueOf(c.body) == [0x00, 0x68, 0x69];
    assert Written(c) == s;
    assert [c][1..] == [] && AllWritten([c]) + [] == s;
    ForwardedCapsules([c], []);
  }

  lemma OneByte(v: nat)
    requires v < 64
    ensures Varint.Fits(Wide(v, 1)) && EncodeAs(Wide(v, 1)) == [v]
  {
    assert ToBigEndian(v, 0) == [];
  }
}
