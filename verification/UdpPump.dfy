/** The stream side of a CONNECT-UDP tunnel: from the transport's chunks to the forwarded payloads. */
module UdpPump {
  import opened Bytes
  import opened Capsules
  import opened FrameReader

  /**
    * Takes tunnel bytes from the reader and pushes them until one push is refused or
    * none are left. The pushes are a cut of the tunnel's bytes into chunks no longer
    * than what was pending or one read. An accepted stream forwards its payloads
    * whole; one of small capsules is accepted whatever the transport does, and one
    * that such chunks cannot absorb is refused whatever it does.
    */
  method PumpStream(reader: Reader) returns (ok: bool, sent: seq<bytes>, ghost chunks: seq<bytes>)
    requires reader.Valid()
    modifies reader
    ensures ok == Accepts([], chunks) && sent == Delivered([], chunks)
    ensures forall i | 0 <= i < |chunks| :: |chunks[i]| <= Most(|old(reader.pending)|)
    ensures Flatten(chunks) <= old(reader.Rest()).data
    ensures ok ==> Flatten(chunks) == old(reader.Rest()).data && sent == Forwarded(old(reader.Rest()).data)
    ensures SmallCapsules(old(reader.Rest()).data) ==> ok
    ensures !Absorbable(old(reader.Rest()).data, Most(|old(reader.pending)|)) ==> !ok
  {
    NoPushes();
    hide Forwarded, Remainder, SmallCapsules, Absorbable, Accepts, Delivered, Flatten, Ahead, Most;
    ghost var data := reader.Rest().data;
    ghost var most := Most(|reader.pending|);
    var capsules := new CapsuleBuffer();
    ok, sent, chunks := true, [], [];
    while true
      invariant reader.Valid() && |reader.pending| <= most
      invariant Accepts([], chunks) && sent == Delivered([], chunks) && capsules.buf == Remainder(Flatten(chunks))
      invariant forall i | 0 <= i < |chunks| :: |chunks[i]| <= most
      invariant data == Flatten(chunks) + reader.Rest().data
      invariant ok
      decreases |reader.Unread()| + |reader.recv.chunks|
    {
      var r := reader.NextData();
      if r.Err? || r.value.None? {
        assert data == Flatten(chunks);
        WholeDelivery(data, chunks, most);
        return;
      }
      var more;
      ok, more := capsules.Push(r.value.value);
      OnePush(chunks, r.value.value);
      sent := sent + more;
      chunks := chunks + [r.value.value];
      if !ok {
        CutOff(data, chunks);
        return;
      }
    }
  }

  lemma NoPushes()
    ensures Accepts([], []) && Delivered([], []) == [] && Flatten<byte>([]) == [] && Remainder([]) == []
  {
    NothingYet();
  }

  /** One more push after an accepted delivery. */
  lemma OnePush(chunks: seq<bytes>, c: bytes)
    requires Accepts([], chunks)
    ensures var s := Remainder(Flatten(chunks)) + c;
            && Flatten(chunks + [c]) == Flatten(chunks) + c
            && Remainder(Flatten(chunks + [c])) == Remainder(s)
            && (Accepts([], chunks + [c]) <==> |Remainder(s)| <= MAX_CAPSULE_BUFFER)
            && Delivered([], chunks + [c]) == Delivered([], chunks) + Forwarded(s)
  {
    hide Forwarded, Remainder;
    NothingYet();
    FlattenConcat(chunks, [c]);
    assert [c][1..] == [] && c + [] == c;
    ReadInParts(Flatten(chunks), c);
    assert [] + Flatten(chunks) == Flatten(chunks);
    AcceptsInParts([], chunks, [c]);
    DeliveredInParts([], chunks, c);
  }

  lemma {:induction false} DeliveredInParts(done: bytes, chunks: seq<bytes>, c: bytes)
    requires Accepts(Remainder(done), chunks)
    ensures Delivered(Remainder(done), chunks + [c]) ==
            Delivered(Remainder(done), chunks) + Forwarded(Remainder(done + Flatten(chunks)) + c)
    decreases |chunks|
  {
    hide Forwarded, Remainder;
    if chunks == [] {
      assert chunks + [c] == [c] && [c][1..] == [] && done + Flatten(chunks) == done;
    } else {
      var first, rest := chunks[0], chunks[1..];
      assert (chunks + [c])[0] == first && (chunks + [c])[1..] == rest + [c];
      ReadInParts(done, first);
      DeliveredInParts(done + first, rest, c);
      assert done + first + Flatten(rest) == done + Flatten(chunks);
    }
  }

  lemma WholeDelivery(data: bytes, chunks: seq<bytes>, most: nat)
    requires Accepts([], chunks) && IsCut(chunks, data, most)
    ensures Delivered([], chunks) == Forwarded(data) && Absorbable(data, most)
  {
    AcceptedDelivery(chunks);
    AcceptedIsAbsorbable([], chunks, most);
    assert [] + data == data;
  }

  lemma CutOff(data: bytes, chunks: seq<bytes>)
    requires Flatten(chunks) <= data && !Accepts([], chunks)
    ensures !SmallCapsules(data)
  {
    if SmallCapsules(data) {
      SmallAccepted(data, chunks);
    }
  }
}
