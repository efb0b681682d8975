/** The capsule stream of a CONNECT-UDP request: DATAGRAM capsules go to the socket, the rest is skipped. */
module Capsules {
  import opened Bytes
  import opened Http3
  import Varint

  const CAPSULE_DATAGRAM: nat := 0x00
  const CONTEXT_ID: nat := 0

  /** Bytes a peer may leave unparsed before its tunnel is closed. */
  const MAX_CAPSULE_BUFFER: nat := MAX_CONTROL_FRAME_BYTES

  /** The UDP payload of a capsule, if it carries one on the UDP context. */
  function PayloadOf(capsule: Frame): (out: seq<bytes>)
  {
    Varint.DecodeBounds(capsule.payload);
    match Varint.Decode(capsule.payload)
    case None => []
    case Some((context, n)) =>
      if capsule.ty == CAPSULE_DATAGRAM && context == CONTEXT_ID then [capsule.payload[n..]] else []
  }

  /** Everything the complete capsules of a stream forward, in order. */
  function Forwarded(s: bytes): (out: seq<bytes>)
    decreases |s|
  {
    match ReadFrame(s)
    case None => []
    case Some((capsule, n)) => PayloadOf(capsule) + Forwarded(s[n..])
  }

  /** What is left of a stream after its complete capsules. */
  function Remainder(s: bytes): (rest: bytes)
    decreases |s|
  {
    match ReadFrame(s)
    case None => s
    case Some((_, n)) => Remainder(s[n..])
  }

  class CapsuleBuffer {
    var buf: bytes

    constructor ()
      ensures buf == []
    {
      buf := [];
    }

    /** Appends a chunk, forwards what it completes, and says whether the rest is still within bounds. */
    method Push(chunk: bytes) returns (ok: bool, sent: seq<bytes>)
      modifies this
      ensures sent == Forwarded(old(buf) + chunk) && buf == Remainder(old(buf) + chunk)
      ensures ok == (|buf| <= MAX_CAPSULE_BUFFER)
    {
      hide ReadFrame, PayloadOf;
      buf := buf + chunk;
      sent := [];
      ghost var s := buf;
      while true
        invariant Forwarded(s) == sent + Forwarded(buf) && Remainder(s) == Remainder(buf)
        decreases |buf|
      {
        var capsule := ReadFrame(buf);
        if capsule.None? {
          return |buf| <= MAX_CAPSULE_BUFFER, sent;
        }
        sent := sent + PayloadOf(capsule.value.0);
        buf := buf[capsule.value.1..];
      }
    }
  }

  // ---- Streams and their prefixes ----

  lemma FrameStable(s: bytes, more: bytes)
    requires ReadFrame(s).Some?
    ensures ReadFrame(s + more) == ReadFrame(s)
  {
    hide ReadHeader;
    HeaderStable(s, more);
    var h := ReadHeader(s).value;
    assert (s + more)[h.used..h.used + h.len] == s[h.used..h.used + h.len];
  }

  /** A frame is read from its own bytes alone. */
  lemma FrameLocal(s: bytes, k: nat)
    requires ReadFrame(s).Some? && ReadFrame(s).value.1 <= k <= |s|
    ensures ReadFrame(s[..k]) == ReadFrame(s)
  {
    HeaderLocal(s, k);
    var h := ReadHeader(s).value;
    hide ReadHeader;
    assert s[..k][h.used..h.used + h.len] == s[h.used..h.used + h.len];
  }

  /** A frame missing a byte is not read at all. */
  lemma CutShort(s: bytes, k: nat)
    requires ReadFrame(s).Some? && k < ReadFrame(s).value.1
    ensures ReadFrame(s[..k]) == None && Remainder(s[..k]) == s[..k]
  {
    hide ReadFrame;
    assert s == s[..k] + s[k..];
    if ReadFrame(s[..k]).Some? {
      FrameStable(s[..k], s[k..]);
    }
  }

  /** Reading a stream in two parts: the second is read behind what the first left. */
  lemma {:induction false} ReadInParts(a: bytes, b: bytes)
    ensures Forwarded(a + b) == Forwarded(a) + Forwarded(Remainder(a) + b)
    ensures Remainder(a + b) == Remainder(Remainder(a) + b)
    decreases |a|
  {
    hide ReadFrame, PayloadOf;
    if ReadFrame(a).Some? {
      var n := ReadFrame(a).value.1;
      FrameStable(a, b);
      assert (a + b)[n..] == a[n..] + b;
      ReadInParts(a[n..], b);
    }
  }

  // ---- Chunked delivery ----

  /** The buffer's verdict over a whole delivery: every push stays within bounds. */
  predicate Accepts(buf: bytes, chunks: seq<bytes>)
    decreases |chunks|
  {
    chunks == [] ||
    (var rest := Remainder(buf + chunks[0]); |rest| <= MAX_CAPSULE_BUFFER && Accepts(rest, chunks[1..]))
  }

  /** What a delivery forwards, up to the push that goes out of bounds. */
  function Delivered(buf: bytes, chunks: seq<bytes>): (out: seq<bytes>)
    decreases |chunks|
  {
    if chunks == [] then []
    else
      var s := buf + chunks[0];
      Forwarded(s) + if |Remainder(s)| <= MAX_CAPSULE_BUFFER then Delivered(Remainder(s), chunks[1..]) else []
  }

  /** The stream side of the UDP pump: chunks are pushed until one is refused. */
  method PumpCapsules(chunks: seq<bytes>) returns (ok: bool, sent: seq<bytes>)
    ensures ok == Accepts([], chunks) && sent == Delivered([], chunks)
  {
    hide Forwarded, Remainder;
    var capsules := new CapsuleBuffer();
    ok, sent := true, [];
    var i := 0;
    while i < |chunks|
      invariant 0 <= i <= |chunks|
      invariant Accepts([], chunks) == Accepts(capsules.buf, chunks[i..])
      invariant Delivered([], chunks) == sent + Delivered(capsules.buf, chunks[i..])
    {
      var more;
      ok, more := capsules.Push(chunks[i]);
      sent := sent + more;
      assert chunks[i..][0] == chunks[i] && chunks[i..][1..] == chunks[i + 1..];
      i := i + 1;
      if !ok {
        return;
      }
    }
  }

  /** An accepted delivery forwards what the whole stream forwards, however it was cut. */
  lemma {:induction false} AcceptedIsWhole(done: bytes, chunks: seq<bytes>)
    requires Accepts(Remainder(done), chunks)
    ensures Forwarded(done) + Delivered(Remainder(done), chunks) == Forwarded(done + Flatten(chunks))
    decreases |chunks|
  {
    hide Forwarded, Remainder;
    if chunks == [] {
      assert done + Flatten(chunks) == done;
    } else {
      var c := chunks[0];
      ReadInParts(done, c);
      AcceptedIsWhole(done + c, chunks[1..]);
      assert done + Flatten(chunks) == (done + c) + Flatten(chunks[1..]);
      assert Forwarded(done + c) + Delivered(Remainder(done + c), chunks[1..]) ==
             Forwarded(done) + Delivered(Remainder(done), chunks);
    }
  }

  lemma AcceptedDelivery(chunks: seq<bytes>)
    requires Accepts([], chunks)
    ensures Delivered([], chunks) == Forwarded(Flatten(chunks))
  {
    NothingYet();
    AcceptedIsWhole([], chunks);
    assert [] + Flatten(chunks) == Flatten(chunks);
    assert [] + Delivered([], chunks) == Delivered([], chunks);
  }

  lemma NothingYet()
    ensures Remainder([]) == [] && Forwarded([]) == []
  {
  }

  /** Every capsule of the stream, and what follows the last, is small enough to wait for whole. */
  predicate SmallCapsules(s: bytes)
    decreases |s|
  {
    match ReadFrame(s)
    case None => |s| <= MAX_CAPSULE_BUFFER
    case Some((_, n)) => n <= MAX_CAPSULE_BUFFER + 1 && SmallCapsules(s[n..])
  }

  lemma {:induction false} SmallPrefix(s: bytes, k: nat)
    requires SmallCapsules(s) && k <= |s|
    ensures |Remainder(s[..k])| <= MAX_CAPSULE_BUFFER
    decreases |s|
  {
    hide ReadFrame;
    var p := s[..k];
    assert s == p + s[k..];
    if ReadFrame(p).Some? {
      FrameStable(p, s[k..]);
      var n := ReadFrame(p).value.1;
      assert p[n..] == s[n..][..k - n];
      SmallPrefix(s[n..], k - n);
    } else if ReadFrame(s).Some? && ReadFrame(s).value.1 <= k {
      FrameLocal(s, k);
    }
  }

  /** Where a stream with an oversized capsule can be cut so that too much is left waiting. */
  lemma {:induction false} BigPrefix(s: bytes) returns (k: nat)
    requires !SmallCapsules(s)
    ensures k <= |s| && |Remainder(s[..k])| > MAX_CAPSULE_BUFFER
    decreases |s|
  {
    hide ReadFrame;
    if ReadFrame(s).None? {
      k := |s|;
      assert s[..k] == s;
    } else {
      var n := ReadFrame(s).value.1;
      if n > MAX_CAPSULE_BUFFER + 1 {
        k := n - 1;
        CutShort(s, k);
      } else {
        k := BigPrefix(s[n..]);
        FrameLocal(s, n + k);
        assert s[..n + k][n..] == s[n..][..k];
        k := n + k;
      }
    }
  }

  lemma {:induction false} SmallIsAccepted(s: bytes, done: nat, chunks: seq<bytes>)
    requires SmallCapsules(s) && done <= |s| && Flatten(chunks) <= s[done..]
    ensures Accepts(Remainder(s[..done]), chunks)
    decreases |chunks|
  {
    hide Remainder, SmallCapsules;
    if chunks != [] {
      var c, rest := chunks[0], Flatten(chunks[1..]);
      var k := done + |c|;
      assert Flatten(chunks) == c + rest;
      assert s[done..][..|c|] == c && rest <= s[done..][|c|..];
      assert s[..k] == s[..done] + c && s[k..] == s[done..][|c|..];
      ReadInParts(s[..done], c);
      SmallPrefix(s, k);
      SmallIsAccepted(s, k, chunks[1..]);
    }
  }

  /** A stream of small capsules, or any front part of one, is accepted in any chunks. */
  lemma SmallAccepted(s: bytes, chunks: seq<bytes>)
    requires SmallCapsules(s) && Flatten(chunks) <= s
    ensures Accepts([], chunks)
  {
    hide SmallCapsules;
    NothingYet();
    assert s[0..] == s && s[..0] == [];
    SmallIsAccepted(s, 0, chunks);
  }

  // ---- Cuts into chunks of bounded size ----

  /** The chunks are a cut of the stream, each of at most `most` bytes. */
  predicate IsCut(chunks: seq<bytes>, s: bytes, most: nat) {
    Flatten(chunks) == s && forall i | 0 <= i < |chunks| :: |chunks[i]| <= most
  }

  /** Every capsule fits what may wait plus one chunk, and no more than what may wait follows the last. */
  predicate Absorbable(s: bytes, most: nat)
    decreases |s|
  {
    match ReadFrame(s)
    case None => |s| <= MAX_CAPSULE_BUFFER
    case Some((_, n)) => n <= MAX_CAPSULE_BUFFER + most && Absorbable(s[n..], most)
  }

  /** An accepted delivery leaves no more than the bound. */
  lemma {:induction false} AcceptedLeavesLittle(done: bytes, chunks: seq<bytes>)
    requires Accepts(Remainder(done), chunks) && |Remainder(done)| <= MAX_CAPSULE_BUFFER
    ensures |Remainder(done + Flatten(chunks))| <= MAX_CAPSULE_BUFFER
    decreases |chunks|
  {
    hide Remainder;
    if chunks == [] {
      assert done + Flatten(chunks) == done;
    } else {
      ReadInParts(done, chunks[0]);
      AcceptedLeavesLittle(done + chunks[0], chunks[1..]);
      assert done + Flatten(chunks) == (done + chunks[0]) + Flatten(chunks[1..]);
    }
  }

  /** Reading the complete capsules of a short front part first changes nothing. */
  lemma {:induction false} AbsorbableBehind(front: bytes, back: bytes, most: nat)
    requires |front| <= MAX_CAPSULE_BUFFER + most && Absorbable(Remainder(front) + back, most)
    ensures Absorbable(front + back, most)
    decreases |front|
  {
    hide ReadFrame;
    if ReadFrame(front).Some? {
      var n := ReadFrame(front).value.1;
      FrameStable(front, back);
      assert (front + back)[n..] == front[n..] + back;
      AbsorbableBehind(front[n..], back, most);
    }
  }

  lemma {:induction false} ShortIsAbsorbable(s: bytes, most: nat)
    requires |s| <= MAX_CAPSULE_BUFFER
    ensures Absorbable(s, most)
    decreases |s|
  {
    hide ReadFrame;
    if ReadFrame(s).Some? {
      ShortIsAbsorbable(s[ReadFrame(s).value.1..], most);
    }
  }

  lemma {:induction false} AcceptedIsAbsorbable(buf: bytes, chunks: seq<bytes>, most: nat)
    requires |buf| <= MAX_CAPSULE_BUFFER && Accepts(buf, chunks)
    requires forall i | 0 <= i < |chunks| :: |chunks[i]| <= most
    ensures Absorbable(buf + Flatten(chunks), most)
    decreases |chunks|
  {
    hide Remainder, Absorbable;
    if chunks == [] {
      assert buf + Flatten(chunks) == buf;
      ShortIsAbsorbable(buf, most);
    } else {
      var front, back := buf + chunks[0], Flatten(chunks[1..]);
      AcceptedIsAbsorbable(Remainder(front), chunks[1..], most);
      AbsorbableBehind(front, back, most);
      assert buf + Flatten(chunks) == front + back;
    }
  }

  // ---- The cut that asks least of the buffer ----

  function Singles(s: bytes): (chunks: seq<bytes>)
    ensures |chunks| == |s| && forall i | 0 <= i < |chunks| :: |chunks[i]| == 1
  {
    if s == [] then [] else [[s[0]]] + Singles(s[1..])
  }

  /** Single bytes, except that a chunk of full size ends each capsule. */
  function GentleCut(s: bytes, most: nat): (chunks: seq<bytes>)
    decreases |s|
  {
    match ReadFrame(s)
    case None => Singles(s)
    case Some((_, n)) =>
      var k := if n <= most then 0 else n - most;
      Singles(s[..k]) + ([s[k..n]] + GentleCut(s[n..], most))
  }

  lemma {:induction false} SinglesFlatten(s: bytes)
    ensures Flatten(Singles(s)) == s
  {
    if s != [] {
      SinglesFlatten(s[1..]);
      assert Singles(s)[1..] == Singles(s[1..]);
      assert s == [s[0]] + s[1..];
    }
  }

  lemma {:induction false} FlattenConcat(a: seq<bytes>, b: seq<bytes>)
    ensures Flatten(a + b) == Flatten(a) + Flatten(b)
  {
    if a == [] {
      assert a + b == b;
    } else {
      assert (a + b)[0] == a[0] && (a + b)[1..] == a[1..] + b;
      FlattenConcat(a[1..], b);
      assert a[0] + (Flatten(a[1..]) + Flatten(b)) == a[0] + Flatten(a[1..]) + Flatten(b);
    }
  }

  lemma {:induction false} GentleCutIsCut(s: bytes, most: nat)
    requires most >= 1
    ensures IsCut(GentleCut(s, most), s, most)
    decreases |s|
  {
    hide ReadFrame, Flatten;
    if ReadFrame(s).None? {
      SinglesFlatten(s);
    } else {
      var n := ReadFrame(s).value.1;
      var k := if n <= most then 0 else n - most;
      var tail := GentleCut(s[n..], most);
      GentleCutIsCut(s[n..], most);
      SinglesFlatten(s[..k]);
      FlattenConcat(Singles(s[..k]), [s[k..n]] + tail);
      FlattenHead(s[k..n], tail);
      assert s == s[..k] + (s[k..n] + s[n..]);
    }
  }

  lemma FlattenHead(c: bytes, rest: seq<bytes>)
    ensures Flatten([c] + rest) == c + Flatten(rest)
  {
    assert ([c] + rest)[1..] == rest;
  }

  lemma {:induction false} AcceptsInParts(done: bytes, a: seq<bytes>, b: seq<bytes>)
    ensures Accepts(Remainder(done), a + b) <==>
            Accepts(Remainder(done), a) && Accepts(Remainder(done + Flatten(a)), b)
    decreases |a|
  {
    hide Remainder;
    if a == [] {
      assert a + b == b && done + Flatten(a) == done;
    } else {
      assert (a + b)[0] == a[0] && (a + b)[1..] == a[1..] + b;
      ReadInParts(done, a[0]);
      AcceptsInParts(done + a[0], a[1..], b);
      assert done + a[0] + Flatten(a[1..]) == done + Flatten(a);
    }
  }

  lemma {:induction false} GentleCutAccepted(s: bytes, most: nat)
    requires most >= 1 && Absorbable(s, most)
    ensures Accepts([], GentleCut(s, most))
    decreases |s|
  {
    hide ReadFrame, Remainder, Accepts;
    NothingYet();
    if ReadFrame(s).None? {
      SinglesFlatten(s);
      assert SmallCapsules(s);
      SmallAccepted(s, Singles(s));
    } else {
      var n := ReadFrame(s).value.1;
      var k := if n <= most then 0 else n - most;
      GentleCutAccepted(s[n..], most);
      LastChunkAccepted(s, n, k, GentleCut(s[n..], most));
      SinglesFlatten(s[..k]);
      CutShort(s, k);
      SmallAccepted(s[..k], Singles(s[..k]));
      assert [] + s[..k] == s[..k];
      AcceptsInParts([], Singles(s[..k]), [s[k..n]] + GentleCut(s[n..], most));
    }
  }

  /** The chunk that completes a capsule leaves an empty buffer. */
  lemma LastChunkAccepted(s: bytes, n: nat, k: nat, rest: seq<bytes>)
    requires ReadFrame(s).Some? && ReadFrame(s).value.1 == n && k < n && Accepts([], rest)
    ensures Accepts(Remainder(s[..k]), [s[k..n]] + rest)
  {
    hide ReadFrame;
    CutShort(s, k);
    assert s[..k] + s[k..n] == s[..n];
    FrameLocal(s, n);
    assert s[..n][n..] == [];
    NothingYet();
    assert Remainder(s[..n]) == [];
    assert ([s[k..n]] + rest)[1..] == rest;
  }

  // ---- The verdict ----

  /** Some cut into such chunks is accepted exactly when the stream can be absorbed in them. */
  lemma AcceptedSomehowExact(s: bytes, most: nat)
    requires most >= 1
    ensures (exists chunks: seq<bytes> :: IsCut(chunks, s, most) && Accepts([], chunks)) <==> Absorbable(s, most)
  {
    hide Accepts, Absorbable, GentleCut;
    if Absorbable(s, most) {
      GentleCutIsCut(s, most);
      GentleCutAccepted(s, most);
    } else {
      assert [] + s == s;
      forall chunks: seq<bytes> | IsCut(chunks, s, most)
        ensures !Accepts([], chunks)
      {
        if Accepts([], chunks) {
          AcceptedIsAbsorbable([], chunks, most);
        }
      }
    }
  }

  /** Every cut into such chunks is accepted. */
  ghost predicate AcceptedHoweverCut(s: bytes, most: nat) {
    forall chunks: seq<bytes> | IsCut(chunks, s, most) :: Accepts([], chunks)
  }

  /**
    * Every cut is accepted exactly when no capsule exceeds the bound by more than one
    * byte and no more than the bound is left at the end.
    */
  lemma AcceptedHoweverCutExact(s: bytes, most: nat)
    requires most >= 1
    ensures AcceptedHoweverCut(s, most) <==> SmallCapsules(s)
  {
    hide Remainder, SmallCapsules, Accepts;
    if SmallCapsules(s) {
      forall chunks: seq<bytes> | IsCut(chunks, s, most)
        ensures Accepts([], chunks)
      {
        SmallAccepted(s, chunks);
      }
    } else {
      SinglesFlatten(s);
      SinglesRefused(s);
      assert IsCut(Singles(s), s, most);
    }
  }

  /** Byte by byte, a stream with an oversized capsule is refused. */
  lemma SinglesRefused(s: bytes)
    requires !SmallCapsules(s)
    ensures !Accepts([], Singles(s))
  {
    hide Remainder, SmallCapsules, Accepts;
    NothingYet();
    var k := BigPrefix(s);
    SinglesSplit(s, k);
    SinglesFlatten(s[..k]);
    assert [] + s[..k] == s[..k];
    AcceptsInParts([], Singles(s[..k]), Singles(s[k..]));
    if Accepts([], Singles(s[..k])) {
      AcceptedLeavesLittle([], Singles(s[..k]));
    }
  }

  lemma {:induction false} SinglesSplit(s: bytes, k: nat)
    requires k <= |s|
    ensures Singles(s) == Singles(s[..k]) + Singles(s[k..])
  {
    if k == 0 {
      assert s[..0] == [] && s[0..] == s;
    } else {
      SinglesSplit(s[1..], k - 1);
      assert s[1..][..k - 1] == s[..k][1..] && s[1..][k - 1..] == s[k..];
    }
  }

  /** The transport's cut of the stream has no say in the verdict. */
  ghost predicate CutIsIrrelevant(s: bytes, most: nat) {
    forall a: seq<bytes>, b: seq<bytes> | IsCut(a, s, most) && IsCut(b, s, most) ::
      Accepts([], a) == Accepts([], b)
  }

  /**
    * The cut has no say exactly when every cut is accepted or every cut is refused:
    * when the capsules are small enough to wait for, or the stream cannot be absorbed
    * in such chunks at all.
    */
  lemma CutIsIrrelevantExact(s: bytes, most: nat)
    requires most >= 1
    ensures CutIsIrrelevant(s, most) <==> SmallCapsules(s) || !Absorbable(s, most)
  {
    hide SmallCapsules, Absorbable, Accepts, IsCut;
    AcceptedHoweverCutExact(s, most);
    AcceptedSomehowExact(s, most);
  }

  /** A capsule that fits one chunk but may not wait: accepted whole, refused in two pieces. */
  lemma CutDecidesVerdict(capsule: Frame, most: nat)
    requires Sendable(capsule) && MAX_CAPSULE_BUFFER + 1 < |EncodeFrame(capsule)| <= most
    ensures var s := EncodeFrame(capsule);
            && IsCut([s], s, most) && Accepts([], [s])
            && var pieces := [s[..|s| - 1], s[|s| - 1..]];
               IsCut(pieces, s, most) && !Accepts([], pieces)
  {
    var s := EncodeFrame(capsule);
    var k := |s| - 1;
    WholeCapsule(capsule);
    CutShort(s, k);
    assert s[..k] + s[k..] == s;
    RefusedAtOnce(s[..k], s[k..]);
    TwoChunks(s[..k], s[k..]);
    FlattenHead(s, []);
    assert [s] + [] == [s];
  }

  lemma TwoChunks(a: bytes, b: bytes)
    ensures Flatten([a, b]) == a + b
  {
    assert [a, b][1..] == [b] && [b][1..] == [];
    assert Flatten([b]) == b + [];
  }

  lemma WholeCapsule(capsule: Frame)
    requires Sendable(capsule)
    ensures ReadFrame(EncodeFrame(capsule)) == Some((capsule, |EncodeFrame(capsule)|))
    ensures Accepts([], [EncodeFrame(capsule)])
  {
    var s := EncodeFrame(capsule);
    FrameRoundTrip(capsule, []);
    hide EncodeFrame, ReadFrame;
    assert s + [] == s && [] + s == s;
    assert s[|s|..] == [];
    NothingYet();
    assert Accepts([], [s][1..]);
  }

  lemma RefusedAtOnce(a: bytes, b: bytes)
    requires |Remainder(a)| > MAX_CAPSULE_BUFFER
    ensures !Accepts([], [a, b])
  {
    hide Remainder;
    assert [] + a == a;
  }
}
