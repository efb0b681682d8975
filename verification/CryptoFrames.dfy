/** The frames of a decrypted QUIC Initial payload (section 19 of RFC 9000), down to its CRYPTO segments. */
module CryptoFrames {
  import opened Bytes
  import opened Varint

  datatype Ja4Error = VarIntTruncated | Truncated | MalformedClientHello | NoClientHello

  /** A piece of the handshake and where it belongs. */
  datatype Segment = Segment(offset: nat, data: bytes)

  // ---- The parser, on the bytes still ahead of the cursor ----

  /** What is left after one varint. */
  function Skip(s: bytes): (r: Result<bytes, Ja4Error>)
    ensures r.Ok? ==> |r.value| < |s|
  {
    DecodeBounds(s);
    match Varint.Decode(s)
    case None => Err(VarIntTruncated)
    case Some((_, n)) => Ok(s[n..])
  }

  /** What is left after `count` varints. */
  function SkipMany(s: bytes, count: nat): (r: Result<bytes, Ja4Error>)
    ensures r.Ok? ==> |r.value| + count <= |s|
    decreases count
  {
    if count == 0 then Ok(s)
    else
      match Skip(s)
      case Err(e) => Err(e)
      case Ok(rest) => SkipMany(rest, count - 1)
  }

  /** What is left after the body of an ACK frame. */
  function SkipAck(s: bytes, ecn: bool): (r: Result<bytes, Ja4Error>)
    ensures r.Ok? ==> |r.value| <= |s|
  {
    match SkipMany(s, 2)
    case Err(e) => Err(e)
    case Ok(s1) =>
      DecodeBounds(s1);
      match Varint.Decode(s1)
      case None => Err(VarIntTruncated)
      case Some((count, n)) =>
        match SkipMany(s1[n..], 1 + 2 * count)
        case Err(e) => Err(e)
        case Ok(s2) => if ecn then SkipMany(s2, 3) else Ok(s2)
  }

  /** The segment of a CRYPTO frame's body, and what is left after it. */
  function ReadCrypto(s: bytes): (r: Result<(Segment, bytes), Ja4Error>)
    ensures r.Ok? ==> |r.value.1| < |s|
  {
    DecodeBounds(s);
    match Varint.Decode(s)
    case None => Err(VarIntTruncated)
    case Some((offset, a)) =>
      DecodeBounds(s[a..]);
      match Varint.Decode(s[a..])
      case None => Err(VarIntTruncated)
      case Some((length, b)) =>
        if |s| < a + b + length then Err(Truncated)
        else Ok((Segment(offset, s[a + b..a + b + length]), s[a + b + length..]))
  }

  /** The CRYPTO segments of a payload, in order. */
  function Parse(s: bytes): (r: Result<seq<Segment>, Ja4Error>)
    decreases |s|
  {
    if s == [] then Ok([])
    else
      DecodeBounds(s);
      match Varint.Decode(s)
      case None => Err(VarIntTruncated)
      case Some((ty, n)) =>
        var body := s[n..];
        if ty == 0x00 || ty == 0x01 then Parse(body)
        else if ty == 0x02 || ty == 0x03 then
          match SkipAck(body, ty == 0x03)
          case Err(e) => Err(e)
          case Ok(rest) => Parse(rest)
        else if ty == 0x06 then
          match ReadCrypto(body)
          case Err(e) => Err(e)
          case Ok((seg, rest)) => Prepend([seg], Parse(rest))
        else Err(MalformedClientHello)
  }

  // ---- The cursor loops ----

  /** The bytes a varint at `pos` occupies. */
  method SkipVarint(payload: bytes, pos: nat) returns (r: Result<nat, Ja4Error>)
    ensures pos <= |payload| ==>
              match Skip(payload[pos..])
              case Err(e) => r == Err(e)
              case Ok(rest) => r.Ok? && 0 < r.value && pos + r.value <= |payload| && payload[pos + r.value..] == rest
    ensures pos > |payload| ==> r == Err(Truncated)
  {
    if pos > |payload| {
      return Err(Truncated);
    }
    DecodeBounds(payload[pos..]);
    var v := DecodeVarint(payload[pos..]);
    if v.None? {
      return Err(VarIntTruncated);
    }
    assert payload[pos..][v.value.1..] == payload[pos + v.value.1..];
    return Ok(v.value.1);
  }

  /**
    * Skips the ranges of an ACK frame. However large the announced count, every
    * round moves the cursor, so the payload's length bounds the loop.
    */
  method SkipRanges(payload: bytes, start: nat, count: nat) returns (r: Result<nat, Ja4Error>)
    requires start <= |payload|
    ensures match SkipMany(payload[start..], 2 * count)
            case Err(e) => r == Err(e)
            case Ok(rest) => r.Ok? && start <= r.value <= |payload| && payload[r.value..] == rest
  {
    hide Skip;
    var pos, i := start, 0;
    while i < count
      invariant 0 <= i <= count && start <= pos <= |payload|
      invariant 2 * i <= pos - start
      invariant SkipMany(payload[start..], 2 * count) == SkipMany(payload[pos..], 2 * (count - i))
      decreases |payload| - pos
    {
      var gap := SkipVarint(payload, pos);
      if gap.Err? {
        return gap;
      }
      pos := pos + gap.value;
      var len := SkipVarint(payload, pos);
      if len.Err? {
        return len;
      }
      pos := pos + len.value;
      i := i + 1;
    }
    return Ok(pos);
  }

  method SkipAckBody(payload: bytes, start: nat, ecn: bool) returns (r: Result<nat, Ja4Error>)
    requires start <= |payload|
    ensures match SkipAck(payload[start..], ecn)
            case Err(e) => r == Err(e)
            case Ok(rest) => r.Ok? && start <= r.value <= |payload| && payload[r.value..] == rest
  {
    hide Skip, Varint.Decode;
    var pos := start;
    var largest := SkipVarint(payload, pos);
    if largest.Err? {
      return largest;
    }
    pos := pos + largest.value;
    var delay := SkipVarint(payload, pos);
    if delay.Err? {
      return delay;
    }
    pos := pos + delay.value;
    assert SkipMany(payload[start..], 2) == Ok(payload[pos..]);
    var count := DecodeVarint(payload[pos..]);
    if count.None? {
      return Err(VarIntTruncated);
    }
    assert payload[pos..][count.value.1..] == payload[pos + count.value.1..];
    pos := pos + count.value.1;
    ghost var ranges := pos;
    var first := SkipVarint(payload, pos);
    if first.Err? {
      return first;
    }
    pos := pos + first.value;
    assert SkipMany(payload[ranges..], 1 + 2 * count.value.0) == SkipMany(payload[pos..], 2 * count.value.0);
    var rest := SkipRanges(payload, pos, count.value.0);
    if rest.Err? {
      return rest;
    }
    pos := rest.value;
    if ecn {
      ghost var counts := pos;
      for k := 0 to 3
        invariant start <= pos <= |payload|
        invariant SkipMany(payload[counts..], 3) == SkipMany(payload[pos..], 3 - k)
      {
        var c := SkipVarint(payload, pos);
        if c.Err? {
          return c;
        }
        pos := pos + c.value;
      }
    }
    return Ok(pos);
  }

  method ReadCryptoBody(payload: bytes, start: nat) returns (r: Result<(Segment, nat), Ja4Error>)
    requires start <= |payload|
    ensures match ReadCrypto(payload[start..])
            case Err(e) => r == Err(e)
            case Ok(seg) => r.Ok? && start <= r.value.1 <= |payload| && (r.value.0, payload[r.value.1..]) == seg
  {
    hide Varint.Decode;
    var pos := start;
    ghost var body := payload[start..];
    var offset := DecodeVarint(payload[pos..]);
    if offset.None? {
      return Err(VarIntTruncated);
    }
    assert body[offset.value.1..] == payload[pos + offset.value.1..];
    pos := pos + offset.value.1;
    var length := DecodeVarint(payload[pos..]);
    if length.None? {
      return Err(VarIntTruncated);
    }
    pos := pos + length.value.1;
    if |payload| < pos + length.value.0 {
      return Err(Truncated);
    }
    var data := payload[pos..pos + length.value.0];
    var used := offset.value.1 + length.value.1;
    assert data == body[used..used + length.value.0];
    pos := pos + length.value.0;
    assert payload[pos..] == body[used + length.value.0..];
    return Ok((Segment(offset.value.0, data), pos));
  }

  /** The frame loop. Its cursor never passes the end of the payload. */
  method CryptoSegments(payload: bytes) returns (r: Result<seq<Segment>, Ja4Error>)
    ensures r == Parse(payload)
  {
    hide Varint.Decode, SkipAck, ReadCrypto;
    var segments: seq<Segment> := [];
    var pos := 0;
    PrependNothing(Parse(payload));
    assert payload[0..] == payload;
    while pos < |payload|
      invariant 0 <= pos <= |payload|
      invariant Parse(payload) == Prepend(segments, Parse(payload[pos..]))
    {
      ghost var s := payload[pos..];
      var ty := DecodeVarint(payload[pos..]);
      if ty.None? {
        return Err(VarIntTruncated);
      }
      DecodeBounds(s);
      assert s[ty.value.1..] == payload[pos + ty.value.1..];
      pos := pos + ty.value.1;
      var frameType := ty.value.0;
      if frameType == 0x00 || frameType == 0x01 {
      } else if frameType == 0x02 || frameType == 0x03 {
        var rest := SkipAckBody(payload, pos, frameType == 0x03);
        if rest.Err? {
          return Err(rest.error);
        }
        pos := rest.value;
      } else if frameType == 0x06 {
        var crypto := ReadCryptoBody(payload, pos);
        if crypto.Err? {
          return Err(crypto.error);
        }
        pos := crypto.value.1;
        PrependAll(segments, [crypto.value.0], Parse(payload[pos..]));
        segments := segments + [crypto.value.0];
      } else {
        return Err(MalformedClientHello);
      }
    }
    assert payload[pos..] == [] && segments + [] == segments;
    return Ok(segments);
  }

  // ---- What a sender may put into an Initial ----

  /** What a client's Initial may hold, with every integer in a width of the sender's choice. */
  datatype FrameBody =
    | Padding
    | Ping
    | Ack(largest: Wide, delay: Wide, count: Wide, first: Wide, ranges: seq<Wide>, ecn: seq<Wide>)
    | Crypto(offset: Wide, length: Wide, data: bytes)

  /** A frame: its type in some width, and its body. */
  datatype QuicFrame = QuicFrame(width: nat, body: FrameBody)

  predicate AllFit(ws: seq<Wide>) {
    forall i | 0 <= i < |ws| :: Fits(ws[i])
  }

  /** An ACK lists a gap and a length per range, and three ECN counts or none. */
  predicate ValidBody(b: FrameBody) {
    match b
    case Padding => true
    case Ping => true
    case Ack(largest, delay, count, first, ranges, ecn) =>
      && AllFit([largest, delay]) && Fits(count) && AllFit([first] + ranges) && AllFit(ecn)
      && |ranges| == 2 * count.value
      && (|ecn| == 0 || |ecn| == 3)
    case Crypto(offset, length, data) =>
      Fits(offset) && Fits(length) && length.value == |data|
  }

  /** The frame types of section 19 of RFC 9000. */
  function TypeOf(b: FrameBody): (ty: nat)
    ensures ty < 64
  {
    match b
    case Padding => 0x00
    case Ping => 0x01
    case Ack(_, _, _, _, _, ecn) => if ecn == [] then 0x02 else 0x03
    case Crypto(_, _, _) => 0x06
  }

  predicate ValidFrame(f: QuicFrame) {
    ValidBody(f.body) && Fits(Wide(TypeOf(f.body), f.width))
  }

  function WidesBytes(ws: seq<Wide>): (s: bytes)
    requires AllFit(ws)
  {
    if ws == [] then [] else EncodeAs(ws[0]) + WidesBytes(ws[1..])
  }

  function BodyBytes(b: FrameBody): (s: bytes)
    requires ValidBody(b)
  {
    match b
    case Padding => []
    case Ping => []
    case Ack(largest, delay, count, first, ranges, ecn) =>
      WidesBytes([largest, delay]) + EncodeAs(count) + WidesBytes([first] + ranges) + WidesBytes(ecn)
    case Crypto(offset, length, data) => EncodeAs(offset) + EncodeAs(length) + data
  }

  function FrameBytes(f: QuicFrame): (s: bytes)
    requires ValidFrame(f)
  {
    EncodeAs(Wide(TypeOf(f.body), f.width)) + BodyBytes(f.body)
  }

  predicate AllValid(fs: seq<QuicFrame>) {
    forall i | 0 <= i < |fs| :: ValidFrame(fs[i])
  }

  function FramesBytes(fs: seq<QuicFrame>): (s: bytes)
    requires AllValid(fs)
  {
    if fs == [] then [] else FrameBytes(fs[0]) + FramesBytes(fs[1..])
  }

  function SegmentOf(f: QuicFrame): (segs: seq<Segment>)
  {
    if f.body.Crypto? then [Segment(f.body.offset.value, f.body.data)] else []
  }

  function SegmentsOf(fs: seq<QuicFrame>): (segs: seq<Segment>)
  {
    if fs == [] then [] else SegmentOf(fs[0]) + SegmentsOf(fs[1..])
  }

  // ---- Written frames are read ----

  lemma SkipOne(w: Wide, rest: bytes)
    requires Fits(w)
    ensures Skip(EncodeAs(w) + rest) == Ok(rest)
  {
    RoundTripAs(w, rest);
    CutPrefix(EncodeAs(w), rest);
  }

  lemma {:induction false} SkipWides(ws: seq<Wide>, rest: bytes)
    requires AllFit(ws)
    ensures SkipMany(WidesBytes(ws) + rest, |ws|) == Ok(rest)
  {
    hide Skip, EncodeAs;
    if ws == [] {
      assert WidesBytes(ws) + rest == rest;
    } else {
      assert WidesBytes(ws) + rest == EncodeAs(ws[0]) + (WidesBytes(ws[1..]) + rest);
      SkipOne(ws[0], WidesBytes(ws[1..]) + rest);
      SkipWides(ws[1..], rest);
    }
  }

  /** The body of an ACK, whatever it acknowledges, is skipped exactly. */
  lemma SkipAckFrame(b: FrameBody, rest: bytes)
    requires b.Ack? && ValidBody(b)
    ensures SkipAck(BodyBytes(b) + rest, b.ecn != []) == Ok(rest)
  {
    hide Skip, SkipMany, EncodeAs, WidesBytes, Varint.Decode;
    var front, count := WidesBytes([b.largest, b.delay]), EncodeAs(b.count);
    var c, d := WidesBytes([b.first] + b.ranges), WidesBytes(b.ecn);
    assert BodyBytes(b) + rest == front + (count + (c + (d + rest)));
    SkipWides([b.largest, b.delay], count + (c + (d + rest)));
    RoundTripAs(b.count, c + (d + rest));
    CutPrefix(count, c + (d + rest));
    SkipWides([b.first] + b.ranges, d + rest);
    SkipWides(b.ecn, rest);
    if b.ecn == [] {
      assert d + rest == rest by {
        NoWides();
      }
    }
  }

  lemma NoWides()
    ensures WidesBytes([]) == []
  {
  }

  lemma ReadCryptoFrame(b: FrameBody, rest: bytes)
    requires b.Crypto? && ValidBody(b)
    ensures ReadCrypto(BodyBytes(b) + rest) == Ok((Segment(b.offset.value, b.data), rest))
  {
    hide EncodeAs, Varint.Decode;
    var offset, length := EncodeAs(b.offset), EncodeAs(b.length);
    assert BodyBytes(b) + rest == offset + (length + (b.data + rest));
    RoundTripAs(b.offset, length + (b.data + rest));
    RoundTripAs(b.length, b.data + rest);
    CutPrefix(offset, length + (b.data + rest));
  }

  /** One round of the parser. */
  lemma ParseStep(s: bytes, ty: nat, n: nat)
    requires Varint.Decode(s) == Some((ty, n))
    ensures 0 < n <= |s|
    ensures ty == 0x00 || ty == 0x01 ==> Parse(s) == Parse(s[n..])
    ensures ty == 0x02 || ty == 0x03 ==>
              var acked := SkipAck(s[n..], ty == 0x03);
              Parse(s) == if acked.Ok? then Parse(acked.value) else Err(acked.error)
    ensures ty == 0x06 ==>
              var crypto := ReadCrypto(s[n..]);
              Parse(s) == if crypto.Ok? then Prepend([crypto.value.0], Parse(crypto.value.1)) else Err(crypto.error)
    ensures ty == 0x04 || ty == 0x05 || ty > 0x06 ==> Parse(s) == Err(MalformedClientHello)
  {
    hide SkipAck, ReadCrypto, Varint.Decode;
    DecodeBounds(s);
  }

  lemma ParseFrame(f: QuicFrame, rest: bytes)
    requires ValidFrame(f)
    ensures FrameBytes(f) != []
    ensures Parse(FrameBytes(f) + rest) == Prepend(SegmentOf(f), Parse(rest))
  {
    var ty := Wide(TypeOf(f.body), f.width);
    assert ty.width > 0;
    hide Varint.Decode, SkipAck, ReadCrypto, EncodeAs, BodyBytes, ValidBody, Parse, Fits;
    var s, body := EncodeAs(ty), BodyBytes(f.body) + rest;
    assert FrameBytes(f) + rest == s + body;
    RoundTripAs(ty, body);
    CutPrefix(s, body);
    ParseStep(s + body, ty.value, ty.width);
    PrependNothing(Parse(rest));
    match f.body
    case Padding => NothingBehind(f.body, rest);
    case Ping => NothingBehind(f.body, rest);
    case Ack(_, _, _, _, _, _) => SkipAckFrame(f.body, rest);
    case Crypto(_, _, _) => ReadCryptoFrame(f.body, rest);
  }

  lemma NothingBehind(b: FrameBody, rest: bytes)
    requires b.Padding? || b.Ping?
    ensures BodyBytes(b) + rest == rest
  {
  }

  /** Any mix of frames parses back to exactly its CRYPTO segments, in order. */
  lemma {:induction false} ParseFrames(fs: seq<QuicFrame>)
    requires AllValid(fs)
    ensures Parse(FramesBytes(fs)) == Ok(SegmentsOf(fs))
  {
    hide Parse, FrameBytes, ValidFrame;
    if fs == [] {
      EmptyPayload();
    } else {
      ParseFrame(fs[0], FramesBytes(fs[1..]));
      ParseFrames(fs[1..]);
    }
  }

  lemma EmptyPayload()
    ensures Parse([]) == Ok([])
  {
  }

  // ---- What is read was written ----

  lemma {:induction false} SkippedWides(s: bytes, count: nat) returns (ws: seq<Wide>)
    requires SkipMany(s, count).Ok?
    ensures AllFit(ws) && |ws| == count && s == WidesBytes(ws) + SkipMany(s, count).value
    decreases count
  {
    hide EncodeAs, Varint.Decode, Fits;
    if count == 0 {
      ws := [];
      assert WidesBytes(ws) + s == s;
    } else {
      DecodeIsEncodeAs(s);
      var (v, n) := Varint.Decode(s).value;
      var more := SkippedWides(s[n..], count - 1);
      ws := [Wide(v, n)] + more;
      assert ws[1..] == more;
      assert s == s[..n] + s[n..];
    }
  }

  lemma SkippedAck(s: bytes, ecn: bool) returns (b: FrameBody)
    requires SkipAck(s, ecn).Ok?
    ensures ValidBody(b) && b.Ack? && TypeOf(b) == (if ecn then 0x03 else 0x02)
    ensures s == BodyBytes(b) + SkipAck(s, ecn).value
  {
    hide SkipMany, EncodeAs, Varint.Decode, Fits, WidesBytes;
    var front := SkippedWides(s, 2);
    var s1 := SkipMany(s, 2).value;
    DecodeIsEncodeAs(s1);
    var (count, n) := Varint.Decode(s1).value;
    var mid := SkippedWides(s1[n..], 1 + 2 * count);
    var s2 := SkipMany(s1[n..], 1 + 2 * count).value;
    var counts: seq<Wide> := [];
    NoWides();
    if ecn {
      counts := SkippedWides(s2, 3);
    }
    b := Ack(front[0], front[1], Wide(count, n), mid[0], mid[1..], counts);
    assert front == [front[0], front[1]] && mid == [mid[0]] + mid[1..];
    var rest := SkipAck(s, ecn).value;
    assert s1 == s1[..n] + s1[n..];
    assert s2 == WidesBytes(counts) + rest;
    assert s == WidesBytes(front) + (EncodeAs(Wide(count, n)) + (WidesBytes(mid) + (WidesBytes(counts) + rest)));
  }

  lemma CryptoRead(s: bytes) returns (b: FrameBody)
    requires ReadCrypto(s).Ok?
    ensures ValidBody(b) && b.Crypto? && ReadCrypto(s).value.0 == Segment(b.offset.value, b.data)
    ensures s == BodyBytes(b) + ReadCrypto(s).value.1
  {
    DecodeIsEncodeAs(s);
    DecodeBounds(s);
    var (offset, m) := Varint.Decode(s).value;
    DecodeIsEncodeAs(s[m..]);
    DecodeBounds(s[m..]);
    var (length, n) := Varint.Decode(s[m..]).value;
    hide EncodeAs, Varint.Decode, Fits;
    var (seg, rest) := ReadCrypto(s).value;
    b := Crypto(Wide(offset, m), Wide(length, n), seg.data);
    FourParts(s, m, m + n, m + n + length);
  }

  lemma FourParts(s: bytes, i: nat, j: nat, k: nat)
    requires i <= j <= k <= |s|
    ensures s[i..][..j - i] == s[i..j] && s == s[..i] + s[i..j] + s[j..k] + s[k..]
  {
  }

  lemma FirstBody(s: bytes, ty: nat, n: nat) returns (b: FrameBody, rest: bytes)
    requires Varint.Decode(s) == Some((ty, n)) && Parse(s).Ok?
    ensures n <= |s| && ValidBody(b) && TypeOf(b) == ty && s[n..] == BodyBytes(b) + rest
    ensures Parse(rest).Ok? && Parse(s).value == SegmentOf(QuicFrame(n, b)) + Parse(rest).value
  {
    hide Varint.Decode, SkipAck, ReadCrypto, BodyBytes, ValidBody, Parse;
    ParseStep(s, ty, n);
    var body := s[n..];
    if ty == 0x00 || ty == 0x01 {
      b, rest := if ty == 0x00 then Padding else Ping, body;
      NothingBehind(b, rest);
      BareBody(b);
    } else if ty == 0x02 || ty == 0x03 {
      b := SkippedAck(body, ty == 0x03);
      rest := SkipAck(body, ty == 0x03).value;
    } else {
      b := CryptoRead(body);
      rest := ReadCrypto(body).value.1;
    }
    assert [] + Parse(rest).value == Parse(rest).value;
  }

  lemma FirstFrame(s: bytes) returns (f: QuicFrame, rest: bytes)
    requires s != [] && Parse(s).Ok?
    ensures ValidFrame(f) && s == FrameBytes(f) + rest && |rest| < |s|
    ensures Parse(rest).Ok? && Parse(s).value == SegmentOf(f) + Parse(rest).value
  {
    hide EncodeAs, Varint.Decode, Fits, BodyBytes, ValidBody, Parse, TypeOf, SegmentOf;
    var ty, n := TypeAhead(s);
    var b;
    b, rest := FirstBody(s, ty, n);
    f := QuicFrame(n, b);
    assert s == s[..n] + s[n..];
    assert s[..n] + (BodyBytes(b) + rest) == s[..n] + BodyBytes(b) + rest;
  }

  lemma TypeAhead(s: bytes) returns (ty: nat, n: nat)
    requires s != [] && Parse(s).Ok?
    ensures Varint.Decode(s) == Some((ty, n)) && 0 < n <= |s|
    ensures Fits(Wide(ty, n)) && s[..n] == EncodeAs(Wide(ty, n))
  {
    hide SkipAck, ReadCrypto, EncodeAs, Varint.Decode, Fits;
    ty, n := Varint.Decode(s).value.0, Varint.Decode(s).value.1;
    DecodeBounds(s);
    DecodeIsEncodeAs(s);
  }

  lemma BareBody(b: FrameBody)
    requires b.Padding? || b.Ping?
    ensures ValidBody(b)
  {
  }

  /** A payload parses only if it is the bytes of valid frames, and then to their segments. */
  lemma {:induction false} ParsedIsFrames(s: bytes) returns (fs: seq<QuicFrame>)
    requires Parse(s).Ok?
    ensures AllValid(fs) && s == FramesBytes(fs) && Parse(s).value == SegmentsOf(fs)
    decreases |s|
  {
    hide Parse, FrameBytes, ValidFrame, SegmentOf;
    fs := [];
    if s == [] {
      EmptyPayload();
    } else {
      var f, rest := FirstFrame(s);
      var more := ParsedIsFrames(rest);
      fs := [f] + more;
      assert fs[1..] == more;
    }
  }

  /** Literal payloads, one for each outcome. */
  lemma PayloadVectors()
    ensures Parse([0x06, 0x02, 0x01, 0x2a]) == Ok([Segment(2, [0x2a])])
    ensures Parse([0x02, 0x05, 0x00, 0x00, 0x00]) == Ok([])
    ensures Parse([0x00]) == Ok([]) && Parse([0x01]) == Ok([])
    ensures Parse([0x06, 0x00, 0x05, 0x2a]) == Err(Truncated)
    ensures Parse([0x06]) == Err(VarIntTruncated) && Parse([0x06, 0x00]) == Err(VarIntTruncated)
    ensures Parse([0x40]) == Err(VarIntTruncated)
    ensures Parse([0x1f]) == Err(MalformedClientHello)
  {
    CryptoVector();
    AckVector();
    ShortVector();
    CutVectors();
    BareVectors();
  }

  lemma OneByteType(ty: byte, rest: bytes)
    requires ty < 64
    ensures EncodeAs(Wide(ty, 1)) == [ty]
    ensures Varint.Decode([ty] + rest) == Some((ty as nat, 1))
    ensures ([ty] + rest)[1..] == rest
  {
    RoundTripAs(Wide(ty, 1), rest);
    assert EncodeAs(Wide(ty, 1)) == [ty];
  }

  lemma BareVectors()
    ensures Parse([0x00]) == Ok([]) && Parse([0x01]) == Ok([])
    ensures Parse([0x40]) == Err(VarIntTruncated) && Parse([0x1f]) == Err(MalformedClientHello)
  {
    OneByteType(0x00, []);
    OneByteType(0x01, []);
    OneByteType(0x1f, []);
    assert [0x00] + [] == [0x00] && [0x01] + [] == [0x01] && [0x1f] + [] == [0x1f];
    assert Varint.Decode([0x40]).None?;
    assert Parse([0x40]) == Err(VarIntTruncated);
    hide Parse, Varint.Decode, EncodeAs;
    EmptyPayload();
    ParseStep([0x00], 0, 1);
    ParseStep([0x01], 1, 1);
    ParseStep([0x1f], 0x1f, 1);
  }

  lemma CryptoVector()
    ensures Parse([0x06, 0x02, 0x01, 0x2a]) == Ok([Segment(2, [0x2a])])
  {
    var f := QuicFrame(1, Crypto(Wide(2, 1), Wide(1, 1), [0x2a]));
    OneByteType(0x06, []);
    OneByteType(0x02, []);
    OneByteType(0x01, []);
    hide EncodeAs;
    assert FrameBytes(f) == [0x06, 0x02, 0x01, 0x2a];
    hide FrameBytes, Parse;
    ParseFrame(f, []);
    EmptyPayload();
    assert FrameBytes(f) + [] == FrameBytes(f) && SegmentOf(f) + [] == [Segment(2, [0x2a])];
  }

  lemma AckVector()
    ensures Parse([0x02, 0x05, 0x00, 0x00, 0x00]) == Ok([])
  {
    var zero := Wide(0, 1);
    var f := QuicFrame(1, Ack(Wide(5, 1), zero, zero, zero, [], []));
    OneByteType(0x02, []);
    OneByteType(0x05, []);
    OneByteType(0x00, []);
    hide EncodeAs;
    NoWides();
    assert [Wide(5, 1), zero][1..] == [zero] && [zero][1..] == [] && [zero] + [] == [zero];
    assert WidesBytes([zero]) == [0x00] && WidesBytes([Wide(5, 1), zero]) == [0x05, 0x00];
    assert FrameBytes(f) == [0x02, 0x05, 0x00, 0x00, 0x00];
    hide FrameBytes, Parse;
    ParseFrame(f, []);
    EmptyPayload();
    assert FrameBytes(f) + [] == FrameBytes(f);
  }

  /** The only way an ACK body fails is a cut integer. */
  lemma AckError(s: bytes, ecn: bool)
    ensures SkipAck(s, ecn).Err? ==> SkipAck(s, ecn) == Err(VarIntTruncated)
  {
    hide SkipMany;
    SkipError(s, 2);
    if SkipMany(s, 2).Ok? {
      var s1 := SkipMany(s, 2).value;
      if Varint.Decode(s1).Some? {
        var (count, n) := Varint.Decode(s1).value;
        DecodeBounds(s1);
        SkipError(s1[n..], 1 + 2 * count);
        if SkipMany(s1[n..], 1 + 2 * count).Ok? {
          SkipError(SkipMany(s1[n..], 1 + 2 * count).value, 3);
        }
      }
    }
  }

  lemma {:induction false} SkipError(s: bytes, count: nat)
    ensures SkipMany(s, count).Err? ==> SkipMany(s, count) == Err(VarIntTruncated)
    decreases count
  {
    if count > 0 && Skip(s).Ok? {
      SkipError(Skip(s).value, count - 1);
    }
  }

  lemma CutVectors()
    ensures Parse([0x06]) == Err(VarIntTruncated) && Parse([0x06, 0x00]) == Err(VarIntTruncated)
  {
    OneByteType(0x06, []);
    OneByteType(0x06, [0x00]);
    OneByteType(0x00, []);
    assert [0x06] + [] == [0x06] && [0x06] + [0x00] == [0x06, 0x00] && [0x00] + [] == [0x00];
    assert Varint.Decode([]).None?;
    hide Varint.Decode, EncodeAs, Parse;
    assert [0x06][1..] == [] && [0x06, 0x00][1..] == [0x00] && [0x00][1..] == [];
    assert ReadCrypto([]) == Err(VarIntTruncated) && ReadCrypto([0x00]) == Err(VarIntTruncated);
    ParseStep([0x06], 6, 1);
    ParseStep([0x06, 0x00], 6, 1);
  }

  lemma ShortVector()
    ensures Parse([0x06, 0x00, 0x05, 0x2a]) == Err(Truncated)
  {
    var s: bytes := [0x06, 0x00, 0x05, 0x2a];
    OneByteType(0x06, [0x00, 0x05, 0x2a]);
    OneByteType(0x00, [0x05, 0x2a]);
    OneByteType(0x05, [0x2a]);
    assert s == [0x06] + [0x00, 0x05, 0x2a] && s[1..] == [0x00] + [0x05, 0x2a];
    assert s[1..][1..] == [0x05] + [0x2a];
    hide Varint.Decode, EncodeAs, Parse;
    assert ReadCrypto(s[1..]) == Err(Truncated);
    ParseStep(s, 6, 1);
  }
}
