/** HTTP/3 frames (section 7.1 of RFC 9114) and the one-shot reading of a whole request stream. */
module Http3 {
  import opened Bytes
  import Varint

  const FRAME_DATA: nat := 0x00
  const FRAME_HEADERS: nat := 0x01

  /** The largest non-DATA frame a request stream may carry. */
  const MAX_CONTROL_FRAME_BYTES: nat := 16384

  datatype Frame = Frame(ty: nat, payload: bytes)

  /** A frame header: type, payload length, header bytes. */
  datatype Header = Header(ty: nat, len: nat, used: nat)

  predicate Sendable(f: Frame) {
    f.ty < Varint.MAX_VALUE && |f.payload| < Varint.MAX_VALUE
  }

  function EncodeFrame(f: Frame): (s: bytes)
    requires Sendable(f)
  {
    Varint.Encode(f.ty) + Varint.Encode(|f.payload|) + f.payload
  }

  /** The two varints at the front of `s`, when both are complete. */
  function ReadHeader(s: bytes): (h: Option<Header>)
    ensures h.Some? ==> 0 < h.value.used <= |s|
  {
    Varint.DecodeBounds(s);
    match Varint.Decode(s)
    case None => None
    case Some((ty, n1)) =>
      Varint.DecodeBounds(s[n1..]);
      match Varint.Decode(s[n1..])
      case None => None
      case Some((len, n2)) => Some(Header(ty, len, n1 + n2))
  }

  /** One complete frame and the bytes it took; None when the frame is not all there yet. */
  function ReadFrame(s: bytes): (r: Option<(Frame, nat)>)
    ensures r.Some? ==> 0 < r.value.1 <= |s|
  {
    match ReadHeader(s)
    case None => None
    case Some(h) =>
      if |s| < h.used + h.len then None
      else Some((Frame(h.ty, s[h.used..h.used + h.len]), h.used + h.len))
  }

  /** How the one-shot reading of a stream ended. */
  datatype End =
    | AtBoundary  // the stream ended between two frames
    | Truncated   // some frame or its header was cut off
    | Refused     // a frame the reader does not accept

  /** The DATA payload bytes a stream carries, and how the reading ended. */
  datatype Reading = Reading(data: bytes, end: End)

  /**
    * The one-shot, frame-by-frame reading of a complete stream: DATA payloads are
    * kept, other frames are skipped up to the bound. The part of a truncated DATA
    * frame that did arrive still counts as data.
    */
  function ReadStream(s: bytes): (r: Reading)
    decreases |s|
  {
    if s == [] then Reading([], AtBoundary)
    else
      match ReadHeader(s)
      case None => Reading([], Truncated)
      case Some(h) =>
        if h.ty != FRAME_DATA && h.len > MAX_CONTROL_FRAME_BYTES then Reading([], Refused)
        else
          match ReadFrame(s)
          case None => Reading(if h.ty == FRAME_DATA then s[h.used..] else [], Truncated)
          case Some((f, n)) =>
            var rest := ReadStream(s[n..]);
            if f.ty == FRAME_DATA then Reading(f.payload + rest.data, rest.end) else rest
  }

  /** The outcome of looking for the first frame of one type. */
  datatype Search =
    | Found(payload: bytes, rest: bytes)
    | Missing(end: End)

  /** The one-shot search for the first frame of type `wanted`. */
  function FindFrame(s: bytes, wanted: nat): (r: Search)
    decreases |s|
  {
    if s == [] then Missing(AtBoundary)
    else
      match ReadHeader(s)
      case None => Missing(Truncated)
      case Some(h) =>
        if h.len > MAX_CONTROL_FRAME_BYTES || (h.ty == FRAME_DATA && h.ty != wanted) then Missing(Refused)
        else
          match ReadFrame(s)
          case None => Missing(Truncated)
          case Some((f, n)) => if f.ty == wanted then Found(f.payload, s[n..]) else FindFrame(s[n..], wanted)
  }

  // ---- Properties ----

  /** A header that is complete in a prefix of the stream is the header of the stream. */
  lemma HeaderStable(s: bytes, more: bytes)
    requires ReadHeader(s).Some?
    ensures ReadHeader(s + more) == ReadHeader(s)
  {
    Varint.DecodeBounds(s);
    var (ty, n1) := Varint.Decode(s).value;
    Varint.DecodeStable(s, more);
    Varint.DecodeStable(s[n1..], more);
    assert (s + more)[n1..] == s[n1..] + more;
  }

  /** A header is read from its own bytes alone. */
  lemma HeaderLocal(s: bytes, k: nat)
    requires ReadHeader(s).Some? && ReadHeader(s).value.used <= k <= |s|
    ensures ReadHeader(s[..k]) == ReadHeader(s)
  {
    hide Varint.Decode;
    Varint.DecodeBounds(s);
    var n := Varint.Decode(s).value.1;
    Varint.DecodeBounds(s[n..]);
    Varint.DecodeLocal(s, k);
    Varint.DecodeLocal(s[n..], k - n);
    assert s[..k][n..] == s[n..][..k - n];
  }

  /** Two varints always decode from sixteen bytes, so a frame header never outgrows them. */
  lemma SixteenBytesHoldAHeader(s: bytes)
    requires |s| >= 16
    ensures ReadHeader(s).Some?
  {
    Varint.DecodeBounds(s);
  }

  /** A frame written by `EncodeFrame` is read back, whatever follows it. */
  lemma FrameRoundTrip(f: Frame, rest: bytes)
    requires Sendable(f)
    ensures |EncodeFrame(f)| > 0
    ensures ReadHeader(EncodeFrame(f) + rest) ==
            Some(Header(f.ty, |f.payload|, |EncodeFrame(f)| - |f.payload|))
    ensures ReadFrame(EncodeFrame(f) + rest) == Some((f, |EncodeFrame(f)|))
  {
    var ty, len := Varint.Encode(f.ty), Varint.Encode(|f.payload|);
    var s := EncodeFrame(f) + rest;
    assert s == ty + (len + (f.payload + rest));
    Varint.RoundTrip(f.ty, len + (f.payload + rest));
    assert s[|ty|..] == len + (f.payload + rest);
    Varint.RoundTrip(|f.payload|, f.payload + rest);
  }

  /** The frames a tunnel peer may write: DATA of any size, other types within the bound. */
  predicate Writable(f: Frame) {
    Sendable(f) && (f.ty == FRAME_DATA || |f.payload| <= MAX_CONTROL_FRAME_BYTES)
  }

  function EncodeFrames(fs: seq<Frame>): (s: bytes)
    requires forall i | 0 <= i < |fs| :: Writable(fs[i])
  {
    if fs == [] then []
    else
      assert Writable(fs[0]);
      EncodeFrame(fs[0]) + EncodeFrames(fs[1..])
  }

  function DataOf(fs: seq<Frame>): (s: bytes)
  {
    if fs == [] then []
    else (if fs[0].ty == FRAME_DATA then fs[0].payload else []) + DataOf(fs[1..])
  }

  /** Reading back any list of written frames gives the DATA bytes in order and ends cleanly. */
  lemma {:induction false} ReadStreamOfFrames(fs: seq<Frame>)
    requires forall i | 0 <= i < |fs| :: Writable(fs[i])
    ensures ReadStream(EncodeFrames(fs)) == Reading(DataOf(fs), AtBoundary)
  {
    if fs != [] {
      assert Writable(fs[0]);
      FrameRoundTrip(fs[0], EncodeFrames(fs[1..]));
      ReadStreamOfFrames(fs[1..]);
      CutPrefix(EncodeFrame(fs[0]), EncodeFrames(fs[1..]));
    }
  }

  /** A HEADERS frame that opens a stream is found, and what follows it is left for the tunnel. */
  lemma FindFirstFrame(f: Frame, rest: bytes)
    requires Sendable(f) && f.ty != FRAME_DATA && |f.payload| <= MAX_CONTROL_FRAME_BYTES
    ensures FindFrame(EncodeFrame(f) + rest, f.ty) == Found(f.payload, rest)
  {
    FrameRoundTrip(f, rest);
    CutPrefix(EncodeFrame(f), rest);
  }

  /** A short frame of a small type is its type, its length and its payload. */
  lemma FrameBytes(ty: nat, payload: bytes)
    requires ty < 64 && |payload| < 64
    ensures EncodeFrame(Frame(ty, payload)) == [ty, |payload|] + payload
    ensures EncodeFrame(Frame(FRAME_DATA, payload)) == [0x00, |payload|] + payload
    ensures EncodeFrame(Frame(FRAME_HEADERS, payload)) == [0x01, |payload|] + payload
  {
    SmallEncoding(ty);
    SmallEncoding(0);
    SmallEncoding(1);
    SmallEncoding(|payload|);
  }

  lemma SmallEncoding(v: nat)
    requires v < 64
    ensures Varint.Encode(v) == [v]
  {
    assert Varint.ToBigEndian(v, 0) == [];
  }

  /** A frame in front of a stream: type 0 is data, any other is skipped up to 16384 bytes and refused beyond. */
  lemma FrameThen(f: Frame, rest: bytes)
    requires Sendable(f)
    ensures var r := ReadStream(rest);
            ReadStream(EncodeFrame(f) + rest) ==
            if f.ty == 0 then Reading(f.payload + r.data, r.end)
            else if |f.payload| <= 16384 then r
            else Reading([], Refused)
  {
    hide ReadFrame, ReadHeader, EncodeFrame;
    FrameRoundTrip(f, rest);
    CutPrefix(EncodeFrame(f), rest);
  }

  /** A frame in front of a search for type `wanted`: found, skipped, or refused as data out of place or too long. */
  lemma FrameSearched(f: Frame, rest: bytes, wanted: nat)
    requires Sendable(f)
    ensures FindFrame(EncodeFrame(f) + rest, wanted) ==
            if |f.payload| > 16384 || (f.ty == 0 && wanted != 0) then Missing(Refused)
            else if f.ty == wanted then Found(f.payload, rest)
            else FindFrame(rest, wanted)
  {
    hide ReadFrame, ReadHeader, EncodeFrame;
    FrameRoundTrip(f, rest);
    CutPrefix(EncodeFrame(f), rest);
  }
}
