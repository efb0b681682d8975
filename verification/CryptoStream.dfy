/** Stitching the CRYPTO segments of several Initial payloads into the TLS handshake. */
module CryptoStream {
  import opened Bytes
  import opened CryptoFrames

  // ---- Ordering ----

  predicate Sorted(segs: seq<Segment>) {
    forall i, j | 0 <= i < j < |segs| :: segs[i].offset <= segs[j].offset
  }

  /** Puts `s` before the first segment that does not start earlier. */
  function Insert(s: Segment, sorted: seq<Segment>): (r: seq<Segment>)
    requires Sorted(sorted)
    ensures Sorted(r)
    ensures multiset(r) == multiset([s]) + multiset(sorted)
    ensures |r| == |sorted| + 1 && forall t | t in r :: t == s || t in sorted
  {
    if sorted == [] || s.offset <= sorted[0].offset then [s] + sorted
    else
      assert sorted == [sorted[0]] + sorted[1..];
      var rest := Insert(s, sorted[1..]);
      assert forall t | t in rest :: sorted[0].offset <= t.offset;
      [sorted[0]] + rest
  }

  /** The stable sort by offset. */
  function SortByOffset(segs: seq<Segment>): (r: seq<Segment>)
    ensures Sorted(r) && multiset(r) == multiset(segs)
  {
    if segs == [] then []
    else
      assert segs == [segs[0]] + segs[1..];
      Insert(segs[0], SortByOffset(segs[1..]))
  }

  /** The segments at one offset, in their order. */
  function Group(segs: seq<Segment>, offset: nat): (g: seq<Segment>)
  {
    if segs == [] then []
    else (if segs[0].offset == offset then [segs[0]] else []) + Group(segs[1..], offset)
  }

  lemma GroupHead(s: Segment, rest: seq<Segment>, offset: nat)
    ensures Group([s] + rest, offset) == (if s.offset == offset then [s] else []) + Group(rest, offset)
  {
    assert ([s] + rest)[1..] == rest;
  }

  lemma {:induction false} InsertKeepsGroups(s: Segment, sorted: seq<Segment>, offset: nat)
    requires Sorted(sorted)
    ensures Group(Insert(s, sorted), offset) == Group([s] + sorted, offset)
  {
    if sorted != [] && s.offset > sorted[0].offset {
      var first, rest := sorted[0], sorted[1..];
      var inserted := Insert(s, rest);
      assert Insert(s, sorted) == [first] + inserted;
      InsertKeepsGroups(s, rest, offset);
      hide Insert, Group;
      assert sorted == [first] + rest;
      GroupHead(first, inserted, offset);
      GroupHead(first, rest, offset);
      GroupHead(s, rest, offset);
      GroupHead(s, sorted, offset);
    }
  }

  /** Segments of equal offset keep their order. */
  lemma {:induction false} SortIsStable(segs: seq<Segment>, offset: nat)
    ensures Group(SortByOffset(segs), offset) == Group(segs, offset)
  {
    if segs != [] {
      var sorted := SortByOffset(segs[1..]);
      SortIsStable(segs[1..], offset);
      hide Insert, Group;
      InsertKeepsGroups(segs[0], sorted, offset);
      GroupHead(segs[0], sorted, offset);
      GroupHead(segs[0], segs[1..], offset);
      assert segs == [segs[0]] + segs[1..];
    }
  }

  // ---- Stitching ----

  /** Appends to `out`, which holds the stream from offset 0, the new tail of each segment in turn. */
  function Stitch(segs: seq<Segment>, out: bytes): (r: Result<bytes, Ja4Error>)
  {
    if segs == [] then
      if out == [] then Err(NoClientHello) else Ok(out)
    else
      var s := segs[0];
      if s.offset + |s.data| <= |out| then Stitch(segs[1..], out)
      else if s.offset > |out| then Err(NoClientHello)
      else Stitch(segs[1..], out + s.data[|out| - s.offset..])
  }

  function Reassemble(segs: seq<Segment>): (r: Result<bytes, Ja4Error>)
  {
    Stitch(SortByOffset(segs), [])
  }

  function ParseAll(payloads: seq<bytes>): (r: Result<seq<Segment>, Ja4Error>)
  {
    if payloads == [] then Ok([])
    else
      match Parse(payloads[0])
      case Err(e) => Err(e)
      case Ok(segs) => Prepend(segs, ParseAll(payloads[1..]))
  }

  function ClientHello(payloads: seq<bytes>): (r: Result<bytes, Ja4Error>)
  {
    match ParseAll(payloads)
    case Err(e) => Err(e)
    case Ok(segs) => Reassemble(segs)
  }

  method ReassembleClientHello(payloads: seq<bytes>) returns (r: Result<bytes, Ja4Error>)
    ensures r == ClientHello(payloads)
  {
    hide Parse, SortByOffset;
    var segments: seq<Segment> := [];
    assert payloads[0..] == payloads;
    PrependNothing(ParseAll(payloads));
    for i := 0 to |payloads|
      invariant ParseAll(payloads) == Prepend(segments, ParseAll(payloads[i..]))
    {
      assert payloads[i..][1..] == payloads[i + 1..];
      var parsed := CryptoSegments(payloads[i]);
      if parsed.Err? {
        return Err(parsed.error);
      }
      PrependAll(segments, parsed.value, ParseAll(payloads[i + 1..]));
      segments := segments + parsed.value;
    }
    assert segments + [] == segments;
    var sorted := SortByOffset(segments);
    var out: bytes := [];
    var expected := 0;
    assert sorted[0..] == sorted;
    for i := 0 to |sorted|
      invariant expected == |out|
      invariant Reassemble(segments) == Stitch(sorted[i..], out)
    {
      assert sorted[i..][0] == sorted[i] && sorted[i..][1..] == sorted[i + 1..];
      var s := sorted[i];
      var end := s.offset + |s.data|;
      if end <= expected {
        continue;
      }
      if s.offset > expected {
        return Err(NoClientHello);
      }
      var start := expected - s.offset;
      out := out + s.data[start..];
      expected := end;
    }
    if out == [] {
      return Err(NoClientHello);
    }
    return Ok(out);
  }

  // ---- When stitching succeeds ----

  function End(s: Segment): (e: nat)
  {
    s.offset + |s.data|
  }

  /** The largest segment end. */
  function MaxEnd(segs: seq<Segment>): (m: nat)
    ensures forall s | s in segs :: End(s) <= m
    ensures m == 0 || exists s :: s in segs && End(s) == m
  {
    if segs == [] then 0
    else
      var rest := MaxEnd(segs[1..]);
      assert segs == [segs[0]] + segs[1..];
      assert rest != 0 ==> exists s :: s in segs[1..] && End(s) == rest;
      if End(segs[0]) >= rest then
        assert segs[0] in segs;
        End(segs[0])
      else rest
  }

  predicate Holds(s: Segment, p: nat) {
    s.offset <= p < End(s)
  }

  /** Some segment carries position `p`. */
  predicate Covered(segs: seq<Segment>, p: nat) {
    exists s | s in segs :: Holds(s, p)
  }

  predicate AllCovered(segs: seq<Segment>) {
    forall p: nat | p < MaxEnd(segs) :: Covered(segs, p)
  }

  predicate Gives(s: Segment, p: nat, b: byte) {
    Holds(s, p) && s.data[p - s.offset] == b
  }

  predicate CarriedAt(segs: seq<Segment>, p: nat, b: byte) {
    exists s | s in segs :: Gives(s, p, b)
  }

  /** Every byte of `out` comes from a segment that carries its position. */
  predicate Carried(segs: seq<Segment>, out: bytes) {
    forall p: nat | p < |out| :: CarriedAt(segs, p, out[p])
  }

  lemma CarriedMore(a: seq<Segment>, b: seq<Segment>, out: bytes)
    requires Carried(a, out) && forall s | s in a :: s in b
    ensures Carried(b, out)
  {
    forall p: nat | p < |out|
      ensures CarriedAt(b, p, out[p])
    {
      assert CarriedAt(a, p, out[p]);
    }
  }

  lemma CarriedExtended(done: seq<Segment>, s: Segment, out: bytes)
    requires Carried(done, out) && s.offset <= |out| < End(s)
    ensures Carried(done + [s], out + s.data[|out| - s.offset..])
    ensures |out + s.data[|out| - s.offset..]| == End(s)
  {
    var out' := out + s.data[|out| - s.offset..];
    CarriedMore(done, done + [s], out);
    assert s in done + [s];
    forall p: nat | p < |out'|
      ensures CarriedAt(done + [s], p, out'[p])
    {
      if p < |out| {
        assert CarriedAt(done + [s], p, out[p]);
      } else {
        assert Gives(s, p, out'[p]);
      }
    }
  }

  lemma CarriedCovers(segs: seq<Segment>, out: bytes)
    requires Carried(segs, out) && |out| == MaxEnd(segs)
    ensures AllCovered(segs)
  {
    forall p: nat | p < MaxEnd(segs)
      ensures Covered(segs, p)
    {
      assert CarriedAt(segs, p, out[p]);
    }
  }

  lemma {:induction false} StitchSorted(done: seq<Segment>, rest: seq<Segment>, out: bytes)
    requires Sorted(done + rest) && |out| == MaxEnd(done) && Carried(done, out)
    ensures var all, r := done + rest, Stitch(rest, out);
            && (r.Ok? <==> MaxEnd(all) > 0 && AllCovered(all))
            && (r.Ok? ==> |r.value| == MaxEnd(all) && Carried(all, r.value))
            && (r.Err? ==> r.error == NoClientHello)
    decreases |rest|
  {
    hide Carried, AllCovered, MaxEnd, Sorted;
    if rest == [] {
      assert done + rest == done;
      CarriedCovers(done, out);
    } else {
      var s := rest[0];
      var done' := done + [s];
      assert done' + rest[1..] == done + rest;
      MaxEndSnoc(done, s);
      if End(s) <= |out| {
        CarriedMore(done, done', out);
        StitchSorted(done', rest[1..], out);
      } else if s.offset > |out| {
        GapUncovered(done, rest, |out|);
        NotAllCovered(done + rest, |out|);
      } else {
        CarriedExtended(done, s, out);
        StitchSorted(done', rest[1..], out + s.data[|out| - s.offset..]);
      }
    }
  }

  lemma NotAllCovered(segs: seq<Segment>, p: nat)
    requires p < MaxEnd(segs) && !Covered(segs, p)
    ensures !AllCovered(segs)
  {
  }

  lemma MaxEndSnoc(done: seq<Segment>, s: Segment)
    ensures MaxEnd(done + [s]) == if End(s) >= MaxEnd(done) then End(s) else MaxEnd(done)
  {
    var m := MaxEnd(done + [s]);
    assert s in done + [s];
    assert forall t | t in done :: t in done + [s];
  }

  /** A segment that starts past everything before it leaves a hole no later one can fill. */
  lemma GapUncovered(done: seq<Segment>, rest: seq<Segment>, p: nat)
    requires rest != [] && Sorted(done + rest) && p == MaxEnd(done) && rest[0].offset > p
    ensures p < MaxEnd(done + rest) && !Covered(done + rest, p)
  {
    var all := done + rest;
    assert rest[0] in all;
    forall s | s in all
      ensures !Holds(s, p)
    {
      var i :| 0 <= i < |all| && all[i] == s;
      if i < |done| {
        assert s in done;
      } else {
        assert all[|done|].offset <= all[i].offset;
      }
    }
  }

  /** The two facts below depend on which segments there are, not on their order. */
  lemma SameSegments(a: seq<Segment>, b: seq<Segment>)
    requires multiset(a) == multiset(b)
    ensures forall s :: s in a <==> s in b
    ensures MaxEnd(a) == MaxEnd(b)
    ensures AllCovered(a) <==> AllCovered(b)
  {
    assert forall s :: s in a <==> s in multiset(a);
    assert forall s :: s in b <==> s in multiset(b);
    assert forall p: nat :: Covered(a, p) <==> Covered(b, p);
  }

  /**
    * Reassembly succeeds exactly when the segments reach past 0 and leave no hole
    * below the largest end. The result is then that long, every byte carried by a
    * segment at its position. The segments may contradict each other.
    */
  lemma ReassembleExact(segs: seq<Segment>)
    ensures Reassemble(segs).Ok? <==> MaxEnd(segs) > 0 && AllCovered(segs)
    ensures Reassemble(segs).Ok? ==>
              |Reassemble(segs).value| == MaxEnd(segs) && Carried(segs, Reassemble(segs).value)
    ensures Reassemble(segs).Err? ==> Reassemble(segs).error == NoClientHello
  {
    var sorted := SortByOffset(segs);
    hide SortByOffset, MaxEnd, AllCovered, Stitch;
    assert [] + sorted == sorted;
    NoSegments();
    StitchSorted([], sorted, []);
    SameSegments(sorted, segs);
    if Reassemble(segs).Ok? {
      CarriedMore(sorted, segs, Reassemble(segs).value);
    }
  }

  lemma NoSegments()
    ensures MaxEnd([]) == 0 && Carried([], [])
  {
  }

  /** A segment cut out of the stream `stream`. */
  predicate Agrees(s: Segment, stream: bytes) {
    End(s) <= |stream| && s.data == stream[s.offset..End(s)]
  }

  /** Segments of one stream give back its prefix up to the largest end, or a refusal when there is a hole. */
  lemma ReassembleStream(segs: seq<Segment>, stream: bytes)
    requires forall s | s in segs :: Agrees(s, stream)
    ensures MaxEnd(segs) <= |stream|
    ensures Reassemble(segs) ==
            if MaxEnd(segs) > 0 && AllCovered(segs) then Ok(stream[..MaxEnd(segs)]) else Err(NoClientHello)
  {
    hide Reassemble, AllCovered;
    ReassembleExact(segs);
    MaxEndInside(segs, stream);
    if Reassemble(segs).Ok? {
      var out := Reassemble(segs).value;
      forall p: nat | p < |out|
        ensures out[p] == stream[..MaxEnd(segs)][p]
      {
        assert CarriedAt(segs, p, out[p]);
        var s :| s in segs && Gives(s, p, out[p]);
        assert s.data[p - s.offset] == stream[p];
      }
      assert out == stream[..MaxEnd(segs)];
    }
  }

  lemma MaxEndInside(segs: seq<Segment>, stream: bytes)
    requires forall s | s in segs :: Agrees(s, stream)
    ensures MaxEnd(segs) <= |stream|
  {
  }

  /** The order of segments cut from one stream does not matter. */
  lemma OrderIndependent(a: seq<Segment>, b: seq<Segment>, stream: bytes)
    requires multiset(a) == multiset(b)
    requires forall s | s in a :: Agrees(s, stream)
    ensures Reassemble(a) == Reassemble(b)
  {
    hide Reassemble, MaxEnd, AllCovered;
    SameSegments(a, b);
    ReassembleStream(a, stream);
    ReassembleStream(b, stream);
  }

  /** Even contradicting segments succeed or fail together, with one length, in every order. */
  lemma OrderIndependentOutcome(a: seq<Segment>, b: seq<Segment>)
    requires multiset(a) == multiset(b)
    ensures Reassemble(a).Ok? == Reassemble(b).Ok?
    ensures Reassemble(a).Ok? ==> |Reassemble(a).value| == |Reassemble(b).value|
  {
    hide Reassemble, MaxEnd, AllCovered;
    SameSegments(a, b);
    ReassembleExact(a);
    ReassembleExact(b);
  }

  // ---- Which segment decides a byte ----

  /** The byte at `p` of the first segment that ends past it. */
  function ByteAt(segs: seq<Segment>, p: nat): (b: Option<byte>)
  {
    if segs == [] then None
    else if End(segs[0]) <= p then ByteAt(segs[1..], p)
    else if segs[0].offset <= p then Some(segs[0].data[p - segs[0].offset])
    else None
  }

  lemma {:induction false} StitchTakesFirst(rest: seq<Segment>, out: bytes, p: nat)
    requires Stitch(rest, out).Ok?
    ensures out <= Stitch(rest, out).value
    ensures |out| <= p < |Stitch(rest, out).value| ==> ByteAt(rest, p) == Some(Stitch(rest, out).value[p])
  {
    if rest != [] {
      var s := rest[0];
      if End(s) <= |out| {
        StitchTakesFirst(rest[1..], out, p);
      } else {
        var out' := out + s.data[|out| - s.offset..];
        StitchTakesFirst(rest[1..], out', p);
        assert |out| <= p < |out'| ==> out'[p] == s.data[p - s.offset];
      }
    }
  }

  /** Nothing that starts earlier reaches `p`, and the segment holds it. */
  predicate Decides(segs: seq<Segment>, s: Segment, p: nat) {
    s in segs && Holds(s, p) && forall u | u in segs && u.offset < s.offset :: End(u) <= p
  }

  lemma {:induction false} ByteIsDecided(sorted: seq<Segment>, p: nat) returns (s: Segment)
    requires Sorted(sorted) && ByteAt(sorted, p).Some?
    ensures Decides(sorted, s, p) && ByteAt(sorted, p) == Some(s.data[p - s.offset])
  {
    s := sorted[0];
    if End(s) <= p {
      s := ByteIsDecided(sorted[1..], p);
      assert sorted == [sorted[0]] + sorted[1..];
    } else {
      forall u | u in sorted
        ensures u.offset >= s.offset
      {
        var i :| 0 <= i < |sorted| && sorted[i] == u;
      }
    }
  }

  /** Every byte of the result is one that a deciding segment holds. */
  lemma ResultIsDecided(a: seq<Segment>, p: nat) returns (s: Segment)
    requires Reassemble(a).Ok? && p < |Reassemble(a).value|
    ensures Decides(a, s, p) && Reassemble(a).value[p] == s.data[p - s.offset]
  {
    var sorted := SortByOffset(a);
    hide SortByOffset, ByteAt, Stitch;
    StitchTakesFirst(sorted, [], p);
    s := ByteIsDecided(sorted, p);
    SameSegments(sorted, a);
  }

  lemma {:induction false} InsertedDecides(s: Segment, sorted: seq<Segment>, p: nat)
    requires Sorted(sorted) && Holds(s, p)
    requires forall u | u in sorted && u.offset < s.offset :: End(u) <= p
    ensures ByteAt(Insert(s, sorted), p) == Some(s.data[p - s.offset])
  {
    if sorted != [] && s.offset > sorted[0].offset {
      assert sorted[0] in sorted;
      InsertedDecides(s, sorted[1..], p);
      assert Insert(s, sorted)[1..] == Insert(s, sorted[1..]);
    }
  }

  function Without(a: seq<Segment>, i: nat): (r: seq<Segment>)
    requires i < |a|
    ensures multiset([a[i]] + r) == multiset(a)
  {
    assert a == a[..i] + [a[i]] + a[i + 1..];
    a[..i] + a[i + 1..]
  }

  lemma FirstIsInserted(s: Segment, rest: seq<Segment>)
    ensures SortByOffset([s] + rest) == Insert(s, SortByOffset(rest))
  {
    assert ([s] + rest)[1..] == rest;
  }

  /** A segment that decides a byte gives it when it arrives first. */
  lemma FirstArrivalDecides(a: seq<Segment>, i: nat, p: nat)
    requires i < |a| && Decides(a, a[i], p) && Reassemble(a).Ok?
    ensures var b := [a[i]] + Without(a, i);
            && Reassemble(b).Ok? && p < |Reassemble(b).value|
            && Reassemble(b).value[p] == a[i].data[p - a[i].offset]
  {
    var s, rest := a[i], Without(a, i);
    var b, sorted := [s] + rest, SortByOffset(rest);
    hide Without, SortByOffset, Insert, Stitch, MaxEnd, AllCovered, ByteAt;
    DecidesInAnyOrder(a, b, s, p);
    OrderIndependentOutcome(a, b);
    SameSegments(sorted, rest);
    assert forall u | u in sorted :: u in b;
    InsertedDecides(s, sorted, p);
    FirstIsInserted(s, rest);
    ReachesEnd(b, s);
    StitchTakesFirst(SortByOffset(b), [], p);
  }

  lemma ReachesEnd(segs: seq<Segment>, s: Segment)
    requires s in segs && Reassemble(segs).Ok?
    ensures End(s) <= |Reassemble(segs).value|
  {
    hide Reassemble, AllCovered;
    ReassembleExact(segs);
  }

  /** Segments of equal offset agree wherever both decide. */
  predicate Tie(a: seq<Segment>) {
    forall s, t, p |
      && s in a && t in a && s.offset == t.offset && s.offset <= p < End(s)
      && Decides(a, s, p) && Decides(a, t, p) ::
      s.data[p - s.offset] == t.data[p - t.offset]
  }

  ghost predicate SameInAnyOrder(a: seq<Segment>) {
    forall b | multiset(b) == multiset(a) :: Reassemble(b) == Reassemble(a)
  }

  lemma DecidesInAnyOrder(a: seq<Segment>, b: seq<Segment>, s: Segment, p: nat)
    requires multiset(a) == multiset(b)
    ensures Decides(a, s, p) <==> Decides(b, s, p)
  {
    SameSegments(a, b);
  }

  lemma TieIsSame(a: seq<Segment>, b: seq<Segment>)
    requires multiset(a) == multiset(b) && Tie(a)
    ensures Reassemble(a) == Reassemble(b)
  {
    hide Reassemble, Tie, Decides;
    OrderIndependentOutcome(a, b);
    ReassembleExact(a);
    ReassembleExact(b);
    if Reassemble(a).Ok? {
      var x, y := Reassemble(a).value, Reassemble(b).value;
      forall p: nat | p < |x|
        ensures x[p] == y[p]
      {
        SameByte(a, b, p);
      }
      assert x == y;
    }
  }

  lemma SameByte(a: seq<Segment>, b: seq<Segment>, p: nat)
    requires multiset(a) == multiset(b) && Tie(a)
    requires Reassemble(a).Ok? && p < |Reassemble(a).value| && Reassemble(b).Ok? && p < |Reassemble(b).value|
    ensures Reassemble(a).value[p] == Reassemble(b).value[p]
  {
    hide Reassemble;
    var s := ResultIsDecided(a, p);
    var t := ResultIsDecided(b, p);
    DecidesInAnyOrder(a, b, t, p);
  }

  /**
    * The order of arrival does not matter exactly when reassembly fails anyway or
    * segments of equal offset agree wherever nothing that starts earlier reaches.
    */
  lemma OrderIndependentExact(a: seq<Segment>)
    ensures SameInAnyOrder(a) <==> Reassemble(a).Err? || Tie(a)
  {
    hide Reassemble, Tie, Decides;
    if Reassemble(a).Err? || Tie(a) {
      forall b | multiset(b) == multiset(a)
        ensures Reassemble(b) == Reassemble(a)
      {
        if Tie(a) {
          TieIsSame(a, b);
        } else {
          OrderIndependentOutcome(a, b);
          ReassembleExact(a);
          ReassembleExact(b);
        }
      }
    } else {
      var i, j, p := Untied(a);
      FirstArrivalDecides(a, i, p);
      FirstArrivalDecides(a, j, p);
    }
  }

  lemma Untied(a: seq<Segment>) returns (i: nat, j: nat, p: nat)
    requires !Tie(a)
    ensures i < |a| && j < |a| && Decides(a, a[i], p) && Decides(a, a[j], p)
    ensures a[i].data[p - a[i].offset] != a[j].data[p - a[j].offset]
  {
    var s, t, q: nat :| s in a && t in a && Decides(a, s, q) && Decides(a, t, q) && s.offset == t.offset &&
      s.data[q - s.offset] != t.data[q - t.offset];
    p := q;
    hide Decides;
    i :| 0 <= i < |a| && a[i] == s;
    j :| 0 <= j < |a| && a[j] == t;
  }

  /** Two contradicting segments of equal offset: the one that arrives first wins. */
  lemma ContradictionDependsOnOrder()
    ensures var a, b := Segment(0, [1]), Segment(0, [2]);
            Reassemble([a, b]) == Ok([1]) && Reassemble([b, a]) == Ok([2])
  {
    TwoAtZero(1, 2);
    TwoAtZero(2, 1);
  }

  lemma TwoAtZero(x: byte, y: byte)
    ensures Reassemble([Segment(0, [x]), Segment(0, [y])]) == Ok([x])
  {
    var a, b := Segment(0, [x]), Segment(0, [y]);
    SortTwo(a, b);
    hide SortByOffset;
    assert [a, b][1..] == [b] && [b][1..] == [];
    assert [] + a.data[0..] == [x];
    assert Stitch([b], [x]) == Ok([x]);
  }

  lemma SortTwo(a: Segment, b: Segment)
    requires a.offset == b.offset
    ensures SortByOffset([a, b]) == [a, b]
  {
    FirstIsInserted(b, []);
    FirstIsInserted(a, [b]);
    assert [b] + [] == [b] && [a] + [b] == [a, b];
    assert SortByOffset([]) == [];
    hide SortByOffset;
  }

  /** Any number of segments whose offsets all differ may contradict each other: their order never matters. */
  lemma DistinctOffsetsTie(a: seq<Segment>)
    requires forall s, t | s in a && t in a && s.offset == t.offset :: s == t
    ensures SameInAnyOrder(a)
  {
    hide Reassemble, SameInAnyOrder;
    OrderIndependentExact(a);
  }

  // ---- End to end ----

  function AllBytes(payloads: seq<seq<QuicFrame>>): (s: seq<bytes>)
    requires forall i | 0 <= i < |payloads| :: AllValid(payloads[i])
  {
    if payloads == [] then [] else [FramesBytes(payloads[0])] + AllBytes(payloads[1..])
  }

  function AllSegments(payloads: seq<seq<QuicFrame>>): (s: seq<Segment>)
  {
    if payloads == [] then [] else SegmentsOf(payloads[0]) + AllSegments(payloads[1..])
  }

  lemma {:induction false} ParsePayloads(payloads: seq<seq<QuicFrame>>)
    requires forall i | 0 <= i < |payloads| :: AllValid(payloads[i])
    ensures ParseAll(AllBytes(payloads)) == Ok(AllSegments(payloads))
  {
    hide Parse, FramesBytes, SegmentsOf;
    if payloads != [] {
      ParseFrames(payloads[0]);
      ParsePayloads(payloads[1..]);
    }
  }

  /**
    * A handshake cut into CRYPTO frames in any way, overlaps included, spread over
    * any payloads in any order and mixed with PADDING, PING and ACK frames, comes
    * back whole as soon as the frames cover it.
    */
  lemma HandshakeRoundTrip(hello: bytes, payloads: seq<seq<QuicFrame>>)
    requires forall i | 0 <= i < |payloads| :: AllValid(payloads[i])
    requires hello != []
    requires forall s | s in AllSegments(payloads) :: Agrees(s, hello)
    requires forall p: nat | p < |hello| :: Covered(AllSegments(payloads), p)
    ensures ClientHello(AllBytes(payloads)) == Ok(hello)
  {
    hide Reassemble, AllSegments, ParseAll, AllBytes, SegmentsOf;
    ParsePayloads(payloads);
    WholeStream(AllSegments(payloads), hello);
  }

  lemma WholeStream(segs: seq<Segment>, stream: bytes)
    requires stream != [] && forall s | s in segs :: Agrees(s, stream)
    requires forall p: nat | p < |stream| :: Covered(segs, p)
    ensures Reassemble(segs) == Ok(stream)
  {
    hide Reassemble;
    ReassembleStream(segs, stream);
    assert Covered(segs, |stream| - 1);
    assert MaxEnd(segs) == |stream| && stream[..|stream|] == stream;
  }
}
