/** The chunk-fed frame reader, proved against the one-shot reading of the whole stream. */
module FrameReader {
  import opened Bytes
  import opened Http3
  import Varint

  /** The largest chunk a single read returns. */
  const CHUNK: nat := 65536

  /** Two integers of the widest kind. */
  const MAX_FRAME_HEADER_BYTES: nat := 16

  /** The most a buffer of `n` bytes grows to between two frames: what it has, or one read. */
  function Most(n: nat): (m: nat)
    ensures m >= n && m >= 65536 && (m == n || m == 65536)
  {
    if n >= CHUNK then n else CHUNK
  }

  datatype FrameError = Stream | Malformed

  /** What the transport will deliver: chunks in order, then the end or a reset. */
  datatype Transport = Transport(chunks: seq<bytes>, reset: bool)

  /** The answer to a reading that ended as `end` on a stream that ended by `reset` or cleanly. */
  function Verdict(end: End, reset: bool): (r: Result<(), FrameError>)
  {
    if end == Refused then Err(Malformed)
    else if reset then Err(Stream)
    else if end == AtBoundary then Ok(())
    else Err(Malformed)
  }

  /** Clean exactly at a frame boundary of a stream that ended; a reset is told from a malformed stream. */
  lemma VerdictExact(end: End, reset: bool)
    ensures Verdict(end, reset).Ok? <==> end == AtBoundary && !reset
    ensures Verdict(end, reset) == Err(Stream) <==> reset && end != Refused
    ensures Verdict(end, reset) == Err(Malformed) <==> end == Refused || (end != AtBoundary && !reset)
  {
  }

  /** The reading still ahead of a reader with `data` bytes of DATA and `skip` bytes to discard first. */
  function Ahead(s: bytes, data: nat, skip: nat): (r: Reading)
  {
    if data > 0 then
      if |s| < data then Reading(s, Truncated)
      else
        var rest := Ahead(s[data..], 0, skip);
        Reading(s[..data] + rest.data, rest.end)
    else if skip > 0 then
      if |s| < skip then Reading([], Truncated) else ReadStream(s[skip..])
    else ReadStream(s)
  }

  /** Yielding the first `n` bytes of a DATA frame leaves the rest of the same reading. */
  lemma YieldData(s: bytes, data: nat, skip: nat, n: nat)
    requires n <= data && n <= |s| && data > 0
    ensures Ahead(s, data, skip) ==
            Reading(s[..n] + Ahead(s[n..], data - n, skip).data, Ahead(s[n..], data - n, skip).end)
  {
    hide ReadStream;
    if |s| < data {
      assert s == s[..n] + s[n..];
    } else if n < data {
      assert s[..data] == s[..n] + s[n..][..data - n];
      assert s[n..][data - n..] == s[data..];
    }
  }

  lemma Discard(s: bytes, skip: nat, n: nat)
    requires n <= skip && n <= |s|
    ensures Ahead(s, 0, skip) == Ahead(s[n..], 0, skip - n)
  {
    if skip <= |s| {
      assert s[n..][skip - n..] == s[skip..];
    }
  }

  /** Where a reading that ran out of bytes stands. */
  lemma OutOfBytes(data: nat, skip: nat)
    ensures data > 0 || skip > 0 ==> Ahead([], data, skip) == Reading([], Truncated)
    ensures data == 0 && skip == 0 ==> Ahead([], data, skip) == Reading([], AtBoundary)
  {
  }

  lemma BetweenFrames(s: bytes)
    ensures Ahead(s, 0, 0) == ReadStream(s)
    ensures ReadHeader(s).None? && s != [] ==> ReadStream(s) == Reading([], Truncated)
  {
    hide ReadHeader;
  }

  /** One round of the search for a frame. */
  lemma SearchFrame(s: bytes, wanted: nat, h: Header)
    requires ReadHeader(s) == Some(h)
    ensures
      FindFrame(s, wanted) ==
      if h.len > MAX_CONTROL_FRAME_BYTES || (h.ty == FRAME_DATA && h.ty != wanted) then Missing(Refused)
      else if |s| < h.used + h.len then Missing(Truncated)
      else if h.ty == wanted then Found(s[h.used..][..h.len], s[h.used..][h.len..])
      else FindFrame(s[h.used..][h.len..], wanted)
  {
    hide ReadHeader;
    if h.used + h.len <= |s| {
      assert s[h.used..][..h.len] == s[h.used..h.used + h.len];
      assert s[h.used..][h.len..] == s[h.used + h.len..];
    }
  }

  lemma HeaderOfNothing()
    ensures ReadHeader([]).None?
  {
  }

  lemma SearchEnds(s: bytes, wanted: nat)
    requires ReadHeader(s).None?
    ensures FindFrame(s, wanted) == Missing(if s == [] then AtBoundary else Truncated)
  {
    hide ReadHeader;
  }

  /** Consuming a header turns the frame-by-frame reading into one that is inside the frame. */
  lemma EnterFrame(s: bytes, h: Header)
    requires ReadHeader(s) == Some(h)
    ensures h.ty == FRAME_DATA ==> ReadStream(s) == Ahead(s[h.used..], h.len, 0)
    ensures h.ty != FRAME_DATA && h.len <= MAX_CONTROL_FRAME_BYTES ==>
              ReadStream(s) == Ahead(s[h.used..], 0, h.len)
    ensures h.ty != FRAME_DATA && h.len > MAX_CONTROL_FRAME_BYTES ==> ReadStream(s) == Reading([], Refused)
  {
    hide ReadHeader;
    if h.used + h.len <= |s| {
      assert s[h.used..][..h.len] == s[h.used..h.used + h.len];
      assert s[h.used..][h.len..] == s[h.used + h.len..];
    }
  }

  /** A header that a read completed leaves less than that read. */
  lemma LeftOver(pending: bytes, before: bytes, h: Header)
    requires ReadHeader(pending) == Some(h)
    ensures before <= pending && ReadHeader(before).None? && |pending| <= |before| + CHUNK ==>
              |pending| - h.used <= CHUNK
  {
    if before <= pending && h.used <= |before| {
      HeaderLocal(pending, |before|);
      assert pending[..|before|] == before;
    }
  }

  class Reader {
    var recv: Transport
    /** The buffer: what has arrived and no caller has seen. */
    var pending: bytes
    /** How much of the open DATA payload is still to be handed out. */
    var remainingData: nat
    /** How much of an unwanted frame is still to be thrown away. */
    var skip: nat
    /** No more chunks will come. */
    var finished: bool
    /** The most `pending` may ever hold. */
    const bound: nat

    ghost predicate Valid()
      reads this
    {
      && (forall i | 0 <= i < |recv.chunks| :: |recv.chunks[i]| <= CHUNK)
      && (finished ==> recv.chunks == [] && !recv.reset)
      && |pending| <= bound
      && MAX_CONTROL_FRAME_BYTES - 1 + CHUNK <= bound
    }

    /** Every byte the reader has not consumed yet, wherever it still is. */
    ghost function Unread(): (s: bytes)
      reads this
    {
      pending + Flatten(recv.chunks)
    }

    /** The reading still ahead. */
    ghost function Rest(): (r: Reading)
      reads this
    {
      Ahead(Unread(), remainingData, skip)
    }

    constructor (recv: Transport, prefix: bytes)
      requires forall i | 0 <= i < |recv.chunks| :: |recv.chunks[i]| <= CHUNK
      ensures Valid()
      ensures Unread() == prefix + Flatten(recv.chunks)
      ensures this.recv == recv && remainingData == 0 && skip == 0
      ensures bound == if |prefix| <= 16383 + 65536 then 16383 + 65536 else |prefix|
    {
      this.recv := recv;
      pending := prefix;
      remainingData := 0;
      skip := 0;
      finished := false;
      bound := if |prefix| <= 16383 + 65536 then 16383 + 65536 else |prefix|;
    }

    /** Moves one chunk from the transport into the buffer; false when there is none left. */
    method Fill() returns (r: Result<bool, FrameError>)
      requires Valid() && |pending| < MAX_CONTROL_FRAME_BYTES
      modifies this`recv, this`pending, this`finished
      ensures Valid() && Unread() == old(Unread()) && recv.reset == old(recv.reset)
      ensures r == Ok(true) ==>
                |recv.chunks| < |old(recv.chunks)| && old(pending) <= pending && |pending| <= |old(pending)| + CHUNK
      ensures r == Ok(false) ==> pending == old(pending) && recv.chunks == [] && !recv.reset
      ensures r.Err? ==> r.error == Stream && pending == old(pending) && recv.chunks == [] && recv.reset
    {
      if finished {
        return Ok(false);
      }
      if recv.chunks != [] {
        var chunk := recv.chunks[0];
        pending := if pending == [] then chunk else pending + chunk;
        recv := recv.(chunks := recv.chunks[1..]);
        return Ok(true);
      }
      if recv.reset {
        return Err(Stream);
      }
      finished := true;
      return Ok(false);
    }

    /** The next frame header, not consumed; None on a clean end between frames. */
    method FrameHeader() returns (r: Result<Option<Header>, FrameError>)
      requires Valid()
      modifies this`recv, this`pending, this`finished
      ensures Valid() && Unread() == old(Unread()) && recv.reset == old(recv.reset)
      ensures |recv.chunks| <= |old(recv.chunks)|
      ensures match r
              case Ok(Some(h)) =>
                && ReadHeader(pending) == Some(h) && ReadHeader(Unread()) == Some(h)
                && |pending| - h.used <= Most(|old(pending)|)
              case Ok(None) => Unread() == [] && !recv.reset
              case Err(e) =>
                && ReadHeader(Unread()).None?
                && recv.chunks == []
                && (e == Malformed ==> !recv.reset && Unread() != [])
                && (e == Stream ==> recv.reset)
    {
      hide ReadHeader;
      ghost var before: bytes := [];
      while true
        invariant Valid() && Unread() == old(Unread()) && recv.reset == old(recv.reset)
        invariant |recv.chunks| <= |old(recv.chunks)|
        invariant pending == old(pending) ||
                  (before <= pending && ReadHeader(before).None? && |pending| <= |before| + CHUNK)
        decreases |recv.chunks|
      {
        var h := ReadHeader(pending);
        if h.Some? {
          LeftOver(pending, before, h.value);
          HeaderStable(pending, Flatten(recv.chunks));
          return Ok(h);
        }
        if |pending| >= MAX_FRAME_HEADER_BYTES {
          SixteenBytesHoldAHeader(pending);
          assert false;
          return Err(Malformed);
        }
        before := pending;
        var f := Fill();
        if f.Err? {
          assert Unread() == pending;
          return Err(f.error);
        }
        if !f.value {
          assert Unread() == pending;
          return if pending == [] then Ok(None) else Err(Malformed);
        }
      }
    }

    /**
      * The payload of the first frame of type `wanted`. It answers as the one-shot
      * search over the unread bytes does, however the transport cut them.
      */
    method NextFrame(wanted: nat) returns (r: Result<Option<bytes>, FrameError>)
      requires Valid()
      modifies this`recv, this`pending, this`finished
      ensures Valid() && recv.reset == old(recv.reset)
      ensures r.Ok? && r.value.Some? ==> |pending| <= Most(|old(pending)|)
      ensures match FindFrame(old(Unread()), wanted)
              case Found(payload, rest) => r == Ok(Some(payload)) && Unread() == rest
              case Missing(end) =>
                (Verdict(end, recv.reset).Ok? ==> r == Ok(None)) &&
                (Verdict(end, recv.reset).Err? ==> r == Err(Verdict(end, recv.reset).error))
    {
      hide ReadHeader, FindFrame;
      while true
        invariant Valid() && recv.reset == old(recv.reset)
        invariant |pending| <= Most(|old(pending)|)
        invariant FindFrame(Unread(), wanted) == FindFrame(old(Unread()), wanted)
        decreases |Unread()|
      {
        ghost var s := Unread();
        var header := FrameHeader();
        if header.Err? {
          SearchEnds(s, wanted);
          return Err(header.error);
        }
        if header.value.None? {
          HeaderOfNothing();
          SearchEnds(s, wanted);
          return Ok(None);
        }
        var h := header.value.value;
        SearchFrame(s, wanted, h);
        if h.len > MAX_CONTROL_FRAME_BYTES || (h.ty == FRAME_DATA && h.ty != wanted) {
          return Err(Malformed);
        }
        var payload := TakePayload(h);
        if payload.Err? {
          return Err(payload.error);
        }
        if h.ty == wanted {
          return Ok(Some(payload.value));
        }
      }
    }

    /** Consumes a header already pending, then the payload it announces. */
    method TakePayload(h: Header) returns (r: Result<bytes, FrameError>)
      requires Valid() && h.used <= |pending| && h.len <= MAX_CONTROL_FRAME_BYTES
      modifies this`recv, this`pending, this`finished
      ensures Valid() && recv.reset == old(recv.reset)
      ensures r.Ok? ==>
                && h.used + h.len <= old(|Unread()|)
                && r.value == old(Unread())[h.used..][..h.len]
                && Unread() == old(Unread())[h.used..][h.len..]
                && |pending| <= Most(|old(pending)| - h.used)
      ensures r.Err? ==>
                old(|Unread()|) < h.used + h.len && r.error == if recv.reset then Stream else Malformed
    {
      ghost var s := Unread();
      pending := pending[h.used..];
      assert Unread() == s[h.used..];
      var g := Gather(h.len);
      if g.Err? {
        return Err(g.error);
      }
      var payload := pending[..h.len];
      pending := pending[h.len..];
      assert payload == s[h.used..][..h.len];
      assert Unread() == s[h.used..][h.len..];
      return Ok(payload);
    }

    /** Fills `pending` up to `len` bytes, unless the stream ends first. */
    method Gather(len: nat) returns (r: Result<(), FrameError>)
      requires Valid() && len <= MAX_CONTROL_FRAME_BYTES
      modifies this`recv, this`pending, this`finished
      ensures Valid() && Unread() == old(Unread()) && recv.reset == old(recv.reset)
      ensures r.Ok? ==> len <= |pending| <= len + Most(|old(pending)|)
      ensures r.Err? ==> |Unread()| < len && r.error == if recv.reset then Stream else Malformed
    {
      while |pending| < len
        invariant Valid() && Unread() == old(Unread()) && recv.reset == old(recv.reset)
        invariant |pending| <= len + Most(|old(pending)|)
        decreases |recv.chunks|
      {
        var f := Fill();
        if f.Err? {
          return Err(f.error);
        }
        if !f.value {
          return Err(Malformed);
        }
      }
      return Ok(());
    }

    /** Takes a chunk when nothing is pending; running out here is inside a frame. */
    method Refill() returns (r: Result<(), FrameError>)
      requires Valid()
      modifies this`recv, this`pending, this`finished
      ensures Valid() && Unread() == old(Unread()) && recv.reset == old(recv.reset)
      ensures |recv.chunks| <= |old(recv.chunks)|
      ensures |pending| <= Most(|old(pending)|)
      ensures r.Ok? ==> pending != [] || |recv.chunks| < |old(recv.chunks)|
      ensures r.Err? ==> Unread() == [] && r.error == if recv.reset then Stream else Malformed
    {
      if pending == [] {
        var f := Fill();
        if f.Err? {
          return Err(f.error);
        }
        if !f.value {
          return Err(Malformed);
        }
      }
      return Ok(());
    }

    /** Yields what is pending of the DATA frame being read. */
    method TakeData() returns (r: Result<bytes, FrameError>)
      requires Valid() && remainingData > 0
      modifies this`recv, this`pending, this`finished, this`remainingData
      ensures Valid() && recv.reset == old(recv.reset)
      ensures r.Ok? ==>
                && old(Rest()) == Reading(r.value + Rest().data, Rest().end)
                && |Unread()| + |recv.chunks| < old(|Unread()| + |recv.chunks|)
                && |r.value| <= Most(|old(pending)|) && |pending| <= Most(|old(pending)|)
      ensures r.Err? ==>
                old(Rest()) == Reading([], Truncated) && r.error == if recv.reset then Stream else Malformed
    {
      hide ReadStream, Ahead, Flatten;
      OutOfBytes(remainingData, skip);
      var f := Refill();
      if f.Err? {
        return Err(f.error);
      }
      var n := if |pending| < remainingData then |pending| else remainingData;
      ghost var s := Unread();
      YieldData(s, remainingData, skip, n);
      remainingData := remainingData - n;
      var chunk := pending[..n];
      pending := pending[n..];
      assert Unread() == s[n..] && chunk == s[..n];
      return Ok(chunk);
    }

    /** Discards what is pending of the frame being skipped. */
    method SkipSome() returns (r: Result<(), FrameError>)
      requires Valid() && remainingData == 0 && skip > 0
      modifies this`recv, this`pending, this`finished, this`skip
      ensures Valid() && recv.reset == old(recv.reset)
      ensures r.Ok? ==>
                && Rest() == old(Rest()) && |pending| <= Most(|old(pending)|)
                && |Unread()| <= old(|Unread()|) && |recv.chunks| <= old(|recv.chunks|)
                && |Unread()| + |recv.chunks| < old(|Unread()| + |recv.chunks|)
      ensures r.Err? ==>
                old(Rest()) == Reading([], Truncated) && r.error == if recv.reset then Stream else Malformed
    {
      hide ReadStream, Ahead, Flatten;
      OutOfBytes(remainingData, skip);
      var f := Refill();
      if f.Err? {
        return Err(f.error);
      }
      var n := if |pending| < skip then |pending| else skip;
      ghost var s := Unread();
      Discard(s, skip, n);
      skip := skip - n;
      pending := pending[n..];
      assert Unread() == s[n..];
      return Ok(());
    }

    /** Consumes the next frame header and sets up its payload; `Ok(false)` on a clean end. */
    method OpenFrame() returns (r: Result<bool, FrameError>)
      requires Valid() && remainingData == 0 && skip == 0
      modifies this
      ensures Valid() && recv.reset == old(recv.reset)
      ensures r == Ok(true) ==>
                && Rest() == old(Rest()) && |pending| <= Most(|old(pending)|)
                && |Unread()| < old(|Unread()|) && |recv.chunks| <= old(|recv.chunks|)
      ensures r == Ok(false) ==> old(Rest()) == Reading([], AtBoundary) && !recv.reset
      ensures r.Err? ==> old(Rest()).data == [] && Verdict(old(Rest()).end, recv.reset) == Err(r.error)
    {
      hide ReadHeader, ReadStream, Ahead;
      OutOfBytes(0, 0);
      var header := FrameHeader();
      ghost var s := Unread();
      BetweenFrames(s);
      if header.Err? {
        return Err(header.error);
      }
      if header.value.None? {
        return Ok(false);
      }
      var h := header.value.value;
      EnterFrame(s, h);
      pending := pending[h.used..];
      assert Unread() == s[h.used..];
      if h.ty == FRAME_DATA {
        remainingData := h.len;
      } else if h.len > MAX_CONTROL_FRAME_BYTES {
        return Err(Malformed);
      } else {
        skip := h.len;
      }
      return Ok(true);
    }

    /**
      * Some more tunnel bytes. Each chunk is the front of the reading ahead, no longer
      * than what was pending or one read, and the answer that is not a chunk comes
      * exactly when no data is left.
      */
    method NextData() returns (r: Result<Option<bytes>, FrameError>)
      requires Valid()
      modifies this
      ensures Valid() && recv.reset == old(recv.reset)
      ensures match r
              case Ok(Some(c)) =>
                && old(Rest()) == Reading(c + Rest().data, Rest().end)
                && |Unread()| + |recv.chunks| < old(|Unread()| + |recv.chunks|)
                && |c| <= Most(|old(pending)|) && |pending| <= Most(|old(pending)|)
              case Ok(None) => old(Rest()).data == [] && Verdict(old(Rest()).end, recv.reset).Ok?
              case Err(e) => old(Rest()).data == [] && Verdict(old(Rest()).end, recv.reset) == Err(e)
    {
      hide ReadStream, Ahead;
      while true
        invariant Valid() && recv.reset == old(recv.reset) && Rest() == old(Rest())
        invariant |Unread()| + |recv.chunks| <= old(|Unread()| + |recv.chunks|)
        invariant |pending| <= Most(|old(pending)|)
        decreases |Unread()| + |recv.chunks|
      {
        if remainingData > 0 {
          var chunk := TakeData();
          return if chunk.Ok? then Ok(Some(chunk.value)) else Err(chunk.error);
        }
        if skip > 0 {
          var s := SkipSome();
          if s.Err? {
            return Err(s.error);
          }
          continue;
        }
        var more := OpenFrame();
        if more.Err? {
          return Err(more.error);
        }
        if !more.value {
          return Ok(None);
        }
      }
    }
  }

  /**
    * The loop every consumer of a tunnel runs: take chunks until the reader stops
    * yielding them. What it collects is the one-shot reading of the whole stream,
    * so it depends on the bytes alone and not on how they were cut.
    */
  method Drain(recv: Transport, prefix: bytes) returns (out: bytes, last: Result<(), FrameError>)
    requires forall i | 0 <= i < |recv.chunks| :: |recv.chunks[i]| <= CHUNK
    ensures out == ReadStream(prefix + Flatten(recv.chunks)).data
    ensures last == Verdict(ReadStream(prefix + Flatten(recv.chunks)).end, recv.reset)
  {
    var reader := new Reader(recv, prefix);
    out, last := DrainRest(reader);
  }

  method DrainRest(reader: Reader) returns (out: bytes, last: Result<(), FrameError>)
    requires reader.Valid()
    modifies reader
    ensures reader.Valid()
    ensures out == old(reader.Rest()).data
    ensures last == Verdict(old(reader.Rest()).end, old(reader.recv.reset))
  {
    out := [];
    while true
      invariant reader.Valid() && reader.recv.reset == old(reader.recv.reset)
      invariant old(reader.Rest()) == Reading(out + reader.Rest().data, reader.Rest().end)
      decreases |reader.Unread()| + |reader.recv.chunks|
    {
      var r := reader.NextData();
      match r
      case Ok(Some(chunk)) => out := out + chunk;
      case Ok(None) => return out, Ok(());
      case Err(e) => return out, Err(e);
    }
  }

  /**
    * A request stream as both ends use it: the head frame first, then the tunnel.
    * Head, payload and verdict are those of the one-shot search and reading.
    */
  method ServeStream(recv: Transport, prefix: bytes, wanted: nat)
    returns (head: Result<Option<bytes>, FrameError>, out: bytes, last: Result<(), FrameError>)
    requires forall i | 0 <= i < |recv.chunks| :: |recv.chunks[i]| <= CHUNK
    ensures match FindFrame(prefix + Flatten(recv.chunks), wanted)
            case Found(payload, rest) =>
              && head == Ok(Some(payload))
              && out == ReadStream(rest).data
              && last == Verdict(ReadStream(rest).end, recv.reset)
            case Missing(end) => out == [] && head.Ok? == Verdict(end, recv.reset).Ok? &&
                                 (head.Ok? ==> head.value.None?) &&
                                 (head.Err? ==> Verdict(end, recv.reset) == Err(head.error))
  {
    var reader := new Reader(recv, prefix);
    head := reader.NextFrame(wanted);
    out, last := [], Ok(());
    if head.Ok? && head.value.Some? {
      out, last := DrainRest(reader);
    }
  }

  /** What precedes `len` tunnel bytes on the wire. */
  function DataFrameHeader(len: nat): (s: bytes)
    requires len < Varint.MAX_VALUE
  {
    Varint.Encode(FRAME_DATA) + Varint.Encode(len)
  }

  /** What a tunnel writer puts on its stream: one DATA frame per payload, in order. */
  function Sent(payloads: seq<bytes>): (s: bytes)
    requires forall i | 0 <= i < |payloads| :: |payloads[i]| < Varint.MAX_VALUE
  {
    if payloads == [] then []
    else DataFrameHeader(|payloads[0]|) + payloads[0] + Sent(payloads[1..])
  }

  function DataFrames(payloads: seq<bytes>): (fs: seq<Frame>)
    ensures |fs| == |payloads|
    ensures forall i | 0 <= i < |fs| :: fs[i] == Frame(FRAME_DATA, payloads[i])
  {
    if payloads == [] then [] else [Frame(FRAME_DATA, payloads[0])] + DataFrames(payloads[1..])
  }

  lemma {:induction false} SentIsFrames(payloads: seq<bytes>)
    requires forall i | 0 <= i < |payloads| :: |payloads[i]| < Varint.MAX_VALUE
    ensures Sent(payloads) == EncodeFrames(DataFrames(payloads))
    ensures DataOf(DataFrames(payloads)) == Flatten(payloads)
  {
    if payloads != [] {
      SentIsFrames(payloads[1..]);
    }
  }

  /** Tunnel writer to tunnel reader: every payload list arrives whole, however the transport cuts it. */
  lemma TunnelRoundTrip(payloads: seq<bytes>, prefix: bytes, chunks: seq<bytes>)
    requires forall i | 0 <= i < |payloads| :: |payloads[i]| < Varint.MAX_VALUE
    requires prefix + Flatten(chunks) == Sent(payloads)
    ensures ReadStream(prefix + Flatten(chunks)) == Reading(Flatten(payloads), AtBoundary)
  {
    SentIsFrames(payloads);
    ReadStreamOfFrames(DataFrames(payloads));
  }

  /** The same with the frames a reader must skip mixed in at will. */
  method ReadBack(ghost fs: seq<Frame>, recv: Transport, prefix: bytes)
    returns (out: bytes, last: Result<(), FrameError>)
    requires forall i | 0 <= i < |recv.chunks| :: |recv.chunks[i]| <= CHUNK
    requires forall i | 0 <= i < |fs| :: Writable(fs[i])
    requires prefix + Flatten(recv.chunks) == EncodeFrames(fs) && !recv.reset
    ensures out == DataOf(fs) && last == Ok(())
  {
    ReadStreamOfFrames(fs);
    out, last := Drain(recv, prefix);
  }
}
