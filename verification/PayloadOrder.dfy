/** When the order in which Initial payloads arrive decides what is reassembled from them. */
module PayloadOrder {
  import opened Bytes
  import opened CryptoFrames
  import opened CryptoStream

  // ---- The segment that arrives first wins ----

  /** The byte at `p` of the first segment of `segs` that decides it among `all`. */
  function FirstDecider(segs: seq<Segment>, all: seq<Segment>, p: nat): (b: Option<byte>)
  {
    if segs == [] then None
    else if Decides(all, segs[0], p) then Some(segs[0].data[p - segs[0].offset])
    else FirstDecider(segs[1..], all, p)
  }

  lemma {:induction false} FirstDeciderConcat(a: seq<Segment>, b: seq<Segment>, all: seq<Segment>, p: nat)
    ensures FirstDecider(a + b, all, p) ==
            if FirstDecider(a, all, p).Some? then FirstDecider(a, all, p) else FirstDecider(b, all, p)
  {
    hide Decides;
    if a == [] {
      assert a + b == b;
    } else {
      assert (a + b)[0] == a[0] && (a + b)[1..] == a[1..] + b;
      FirstDeciderConcat(a[1..], b, all, p);
    }
  }

  lemma {:induction false} FirstDeciderExists(segs: seq<Segment>, all: seq<Segment>, p: nat, d: Segment)
    requires d in segs && Decides(all, d, p)
    ensures FirstDecider(segs, all, p).Some?
  {
    hide Decides;
    if !Decides(all, segs[0], p) {
      assert segs == [segs[0]] + segs[1..];
      FirstDeciderExists(segs[1..], all, p, d);
    }
  }

  lemma {:induction false} FirstDeciderFrom(segs: seq<Segment>, all: seq<Segment>, p: nat) returns (s: Segment)
    requires FirstDecider(segs, all, p).Some?
    ensures s in segs && Decides(all, s, p) && FirstDecider(segs, all, p) == Some(s.data[p - s.offset])
  {
    hide Decides;
    s := segs[0];
    if !Decides(all, s, p) {
      s := FirstDeciderFrom(segs[1..], all, p);
    }
  }

  lemma {:induction false} FirstDeciderSame(segs: seq<Segment>, a: seq<Segment>, b: seq<Segment>, p: nat)
    requires multiset(a) == multiset(b)
    ensures FirstDecider(segs, a, p) == FirstDecider(segs, b, p)
  {
    hide Decides;
    if segs != [] {
      DecidesInAnyOrder(a, b, segs[0], p);
      FirstDeciderSame(segs[1..], a, b, p);
    }
  }

  /** Inserting a segment that does not reach `p`, or starts behind one that does, changes nothing at `p`. */
  lemma {:induction false} InsertedBehind(x: Segment, sorted: seq<Segment>, d: Segment, p: nat)
    requires Sorted(sorted) && d in sorted && End(d) > p && (End(x) <= p || x.offset > d.offset)
    ensures ByteAt(Insert(x, sorted), p) == ByteAt(sorted, p)
  {
    var first, rest := sorted[0], sorted[1..];
    if x.offset <= first.offset {
      assert first.offset <= d.offset by {
        var i :| 0 <= i < |sorted| && sorted[i] == d;
      }
      assert ([x] + sorted)[1..] == sorted;
    } else {
      var inserted := Insert(x, rest);
      assert Insert(x, sorted) == [first] + inserted && ([first] + inserted)[1..] == inserted;
      if End(first) <= p {
        assert sorted == [first] + rest;
        InsertedBehind(x, rest, d, p);
      }
    }
  }

  /** Among the segments that decide a byte the stable sort leaves the first to arrive in front. */
  lemma {:induction false} SortedTakesFirst(segs: seq<Segment>, all: seq<Segment>, p: nat)
    requires (forall s | s in segs :: s in all) && FirstDecider(segs, all, p).Some?
    ensures ByteAt(SortByOffset(segs), p) == FirstDecider(segs, all, p)
  {
    hide Insert, ByteAt;
    var x, rest := segs[0], segs[1..];
    var sorted := SortByOffset(rest);
    assert SortByOffset(segs) == Insert(x, sorted);
    assert segs == [x] + rest;
    SameSegments(sorted, rest);
    hide SortByOffset;
    if Decides(all, x, p) {
      InsertedDecides(x, sorted, p);
    } else {
      SortedTakesFirst(rest, all, p);
      var d := FirstDeciderFrom(rest, all, p);
      assert End(x) > p ==> x.offset > d.offset;
      InsertedBehind(x, sorted, d, p);
    }
  }

  /** Each byte of the result is that of the first segment to arrive of those that decide it. */
  lemma ResultIsFirst(segs: seq<Segment>, p: nat)
    requires Reassemble(segs).Ok? && p < |Reassemble(segs).value|
    ensures FirstDecider(segs, segs, p) == Some(Reassemble(segs).value[p])
  {
    var d := ResultIsDecided(segs, p);
    FirstDeciderExists(segs, segs, p, d);
    hide FirstDecider, SortByOffset, ByteAt, Stitch;
    SortedTakesFirst(segs, segs, p);
    StitchTakesFirst(SortByOffset(segs), [], p);
  }

  // ---- Parsing several payloads ----

  predicate AllParse(payloads: seq<bytes>) {
    forall x | x in payloads :: Parse(x).Ok?
  }

  lemma {:induction false} ParseAllOk(payloads: seq<bytes>)
    requires AllParse(payloads)
    ensures ParseAll(payloads).Ok?
  {
    hide Parse;
    if payloads != [] {
      assert payloads[0] in payloads;
      ParseAllOk(payloads[1..]);
    }
  }

  /** A payload that does not parse fails the whole, with the error of one such payload. */
  lemma {:induction false} ParseAllErr(payloads: seq<bytes>) returns (x: bytes)
    requires !AllParse(payloads)
    ensures x in payloads && Parse(x).Err? && ParseAll(payloads) == Err(Parse(x).error)
  {
    hide Parse;
    x := payloads[0];
    if Parse(x).Ok? {
      assert payloads == [x] + payloads[1..];
      x := ParseAllErr(payloads[1..]);
    }
  }

  lemma {:induction false} ParseAllConcat(a: seq<bytes>, b: seq<bytes>)
    requires AllParse(a) && AllParse(b)
    ensures ParseAll(a).Ok? && ParseAll(b).Ok?
    ensures ParseAll(a + b) == Ok(ParseAll(a).value + ParseAll(b).value)
  {
    hide Parse;
    ParseAllOk(a);
    ParseAllOk(b);
    if a == [] {
      assert a + b == b && [] + ParseAll(b).value == ParseAll(b).value;
    } else {
      assert a[0] in a;
      assert (a + b)[0] == a[0] && (a + b)[1..] == a[1..] + b;
      ParseAllConcat(a[1..], b);
      var first, mid, last := Parse(a[0]).value, ParseAll(a[1..]).value, ParseAll(b).value;
      assert first + (mid + last) == first + mid + last;
    }
  }

  lemma ParseOne(x: bytes)
    requires Parse(x).Ok?
    ensures ParseAll([x]) == Parse(x)
  {
    hide Parse;
    assert [x][1..] == [] && Parse(x).value + [] == Parse(x).value;
  }

  /** Payload `i` moved to the front. */
  function ToFront(payloads: seq<bytes>, i: nat): (r: seq<bytes>)
    requires i < |payloads|
    ensures multiset(r) == multiset(payloads) && r[0] == payloads[i]
  {
    assert payloads == payloads[..i] + [payloads[i]] + payloads[i + 1..];
    [payloads[i]] + (payloads[..i] + payloads[i + 1..])
  }

  lemma SamePayloads(a: seq<bytes>, b: seq<bytes>)
    requires multiset(a) == multiset(b)
    ensures forall x :: x in a <==> x in b
    ensures AllParse(a) <==> AllParse(b)
  {
    hide Parse;
    assert forall x :: x in a <==> x in multiset(a);
    assert forall x :: x in b <==> x in multiset(b);
  }

  lemma MovedSegments(payloads: seq<bytes>, i: nat)
    requires i < |payloads| && AllParse(payloads)
    ensures ParseAll(payloads).Ok? && ParseAll(ToFront(payloads, i)).Ok?
    ensures multiset(ParseAll(payloads).value) == multiset(ParseAll(ToFront(payloads, i)).value)
  {
    hide Parse, ParseAll;
    var a, x, b := payloads[..i], [payloads[i]], payloads[i + 1..];
    assert payloads[i] in payloads;
    assert payloads == a + (x + b);
    ParseAllConcat(x, b);
    ParseAllConcat(a, x + b);
    ParseAllConcat(a, b);
    ParseAllConcat(x, a + b);
  }

  lemma SameTails(a: seq<bytes>, b: seq<bytes>)
    requires a != [] && b != [] && a[0] == b[0] && multiset(a) == multiset(b)
    ensures multiset(a[1..]) == multiset(b[1..])
  {
    assert a == [a[0]] + a[1..] && b == [b[0]] + b[1..];
    assert multiset(a[1..]) == multiset(a) - multiset{a[0]};
    assert multiset(b[1..]) == multiset(b) - multiset{b[0]};
  }

  /** The same payloads in another order carry the same segments in another order. */
  lemma {:induction false} PermutedSegments(a: seq<bytes>, b: seq<bytes>)
    requires multiset(a) == multiset(b) && AllParse(a)
    ensures ParseAll(a).Ok? && ParseAll(b).Ok?
    ensures multiset(ParseAll(a).value) == multiset(ParseAll(b).value)
    decreases |a|
  {
    hide Parse;
    SamePayloads(a, b);
    ParseAllOk(a);
    ParseAllOk(b);
    if a != [] {
      assert a[0] in b;
      var i :| 0 <= i < |b| && b[i] == a[0];
      var front := ToFront(b, i);
      MovedSegments(b, i);
      SameTails(a, front);
      PermutedSegments(a[1..], front[1..]);
    } else {
      assert |multiset(b)| == 0;
    }
  }

  // ---- The exact condition ----

  ghost predicate SameInAnyPayloadOrder(a: seq<bytes>) {
    forall b: seq<bytes> | multiset(b) == multiset(a) :: ClientHello(b) == ClientHello(a)
  }

  /** All payloads that do not parse fail with one error. */
  predicate FailAlike(a: seq<bytes>) {
    forall x, y | x in a && y in a && Parse(x).Err? && Parse(y).Err? :: Parse(x).error == Parse(y).error
  }

  /** Any two payloads that can decide a byte decide it alike, each by its own first deciding segment. */
  predicate PayloadTie(a: seq<bytes>)
    requires AllParse(a)
  {
    ParseAllOk(a);
    var all := ParseAll(a).value;
    forall x, y, p | x in a && y in a && 0 <= p < MaxEnd(all) ::
      var u, v := FirstDecider(Parse(x).value, all, p), FirstDecider(Parse(y).value, all, p);
      u.Some? && v.Some? ==> u == v
  }

  /** Two first payloads that lead to different results. */
  lemma FrontsDiffer(a: seq<bytes>, i: nat, j: nat)
    requires i < |a| && j < |a| && ClientHello(ToFront(a, i)) != ClientHello(ToFront(a, j))
    ensures !SameInAnyPayloadOrder(a)
  {
    hide ClientHello, ToFront;
  }

  lemma FrontFails(a: seq<bytes>, i: nat)
    requires i < |a| && Parse(a[i]).Err?
    ensures ClientHello(ToFront(a, i)) == Err(Parse(a[i]).error)
  {
    hide Parse;
  }

  /** When some payload does not parse, the error is the same in every order exactly when all such fail alike. */
  lemma FailingPayloadsExact(a: seq<bytes>)
    requires !AllParse(a)
    ensures SameInAnyPayloadOrder(a) <==> FailAlike(a)
  {
    hide Parse, ParseAll, ToFront;
    if FailAlike(a) {
      var x := ParseAllErr(a);
      forall b: seq<bytes> | multiset(b) == multiset(a)
        ensures ClientHello(b) == ClientHello(a)
      {
        SamePayloads(a, b);
        var y := ParseAllErr(b);
      }
    } else {
      var x, y :| x in a && y in a && Parse(x).Err? && Parse(y).Err? && Parse(x).error != Parse(y).error;
      var i :| 0 <= i < |a| && a[i] == x;
      var j :| 0 <= j < |a| && a[j] == y;
      FrontFails(a, i);
      FrontFails(a, j);
      FrontsDiffer(a, i, j);
    }
  }

  lemma {:induction false} DecidingPayload(a: seq<bytes>, all: seq<Segment>, p: nat) returns (x: bytes)
    requires AllParse(a) && ParseAll(a).Ok? && FirstDecider(ParseAll(a).value, all, p).Some?
    ensures x in a && Parse(x).Ok? && FirstDecider(Parse(x).value, all, p) == FirstDecider(ParseAll(a).value, all, p)
  {
    hide Parse, FirstDecider;
    assert a != [] by {
      assert FirstDecider([], all, p).None? by { NoDecider(all, p); }
    }
    assert a[0] in a;
    ParseAllOk(a[1..]);
    x := a[0];
    FirstDeciderConcat(Parse(x).value, ParseAll(a[1..]).value, all, p);
    if FirstDecider(Parse(x).value, all, p).None? {
      x := DecidingPayload(a[1..], all, p);
    }
  }

  lemma NoDecider(all: seq<Segment>, p: nat)
    ensures FirstDecider([], all, p).None?
  {
  }

  /** The byte at `p` as some payload decides it, in whatever order the payloads came. */
  lemma HelloByte(a: seq<bytes>, b: seq<bytes>, p: nat) returns (x: bytes)
    requires multiset(a) == multiset(b) && AllParse(a) && ClientHello(b).Ok? && p < |ClientHello(b).value|
    ensures ParseAll(a).Ok? && x in a && Parse(x).Ok?
    ensures FirstDecider(Parse(x).value, ParseAll(a).value, p) == Some(ClientHello(b).value[p])
  {
    hide Parse, ParseAll, FirstDecider, Reassemble;
    SamePayloads(a, b);
    PermutedSegments(a, b);
    var segs, all := ParseAll(b).value, ParseAll(a).value;
    ResultIsFirst(segs, p);
    x := DecidingPayload(b, segs, p);
    FirstDeciderSame(Parse(x).value, segs, all, p);
  }

  lemma TiedHello(a: seq<bytes>, b: seq<bytes>)
    requires multiset(a) == multiset(b) && AllParse(a) && (ClientHello(a).Err? || PayloadTie(a))
    ensures ClientHello(b) == ClientHello(a)
  {
    hide Parse, ParseAll, Reassemble, MaxEnd, PayloadTie, FirstDecider;
    SamePayloads(a, b);
    PermutedSegments(a, b);
    OrderIndependentOutcome(ParseAll(a).value, ParseAll(b).value);
    ReassembleExact(ParseAll(a).value);
    ReassembleExact(ParseAll(b).value);
    if ClientHello(a).Ok? {
      var u, v := ClientHello(a).value, ClientHello(b).value;
      forall p: nat | p < |u|
        ensures u[p] == v[p]
      {
        var x := HelloByte(a, a, p);
        var y := HelloByte(a, b, p);
        TiedAt(a, x, y, p);
      }
      assert u == v;
    }
  }

  lemma TiedAt(a: seq<bytes>, x: bytes, y: bytes, p: nat)
    requires AllParse(a) && PayloadTie(a) && x in a && y in a && ParseAll(a).Ok? && p < MaxEnd(ParseAll(a).value)
    requires FirstDecider(Parse(x).value, ParseAll(a).value, p).Some?
    requires FirstDecider(Parse(y).value, ParseAll(a).value, p).Some?
    ensures FirstDecider(Parse(x).value, ParseAll(a).value, p) == FirstDecider(Parse(y).value, ParseAll(a).value, p)
  {
    hide Parse, ParseAll, FirstDecider, MaxEnd;
  }

  /** A payload that can decide a byte decides it when it arrives first. */
  lemma FrontDecides(a: seq<bytes>, i: nat, p: nat)
    requires i < |a| && AllParse(a) && ParseAll(a).Ok? && ClientHello(a).Ok?
    requires Parse(a[i]).Ok? && FirstDecider(Parse(a[i]).value, ParseAll(a).value, p).Some?
    ensures var b := ToFront(a, i);
            && ClientHello(b).Ok? && p < |ClientHello(b).value|
            && Some(ClientHello(b).value[p]) == FirstDecider(Parse(a[i]).value, ParseAll(a).value, p)
  {
    var b := ToFront(a, i);
    hide Parse, Reassemble, FirstDecider, ToFront;
    SamePayloads(a, b);
    PermutedSegments(a, b);
    var all, segs, mine := ParseAll(a).value, ParseAll(b).value, Parse(a[i]).value;
    OrderIndependentOutcome(all, segs);
    ParseAllOk(b[1..]);
    assert segs == mine + ParseAll(b[1..]).value;
    var d := FirstDeciderFrom(mine, all, p);
    DecidesInAnyOrder(all, segs, d, p);
    assert d in segs;
    ReachesEnd(segs, d);
    ResultIsFirst(segs, p);
    FirstDeciderConcat(mine, ParseAll(b[1..]).value, segs, p);
    FirstDeciderSame(mine, segs, all, p);
  }

  lemma UntiedHello(a: seq<bytes>)
    requires AllParse(a) && ClientHello(a).Ok? && !PayloadTie(a)
    ensures !SameInAnyPayloadOrder(a)
  {
    ParseAllOk(a);
    hide Parse, ParseAll, FirstDecider, MaxEnd, ClientHello, ToFront;
    var all := ParseAll(a).value;
    var x, y, p :| x in a && y in a && 0 <= p < MaxEnd(all) &&
      var u, v := FirstDecider(Parse(x).value, all, p), FirstDecider(Parse(y).value, all, p);
      u.Some? && v.Some? && u != v;
    var i :| 0 <= i < |a| && a[i] == x;
    var j :| 0 <= j < |a| && a[j] == y;
    FrontDecides(a, i, p);
    FrontDecides(a, j, p);
    FrontsDiffer(a, i, j);
  }

  /**
    * The order of the payloads does not matter exactly when all that do not parse fail
    * alike, and, if all parse, there is a gap in any case or no two payloads decide a
    * byte differently.
    */
  lemma PayloadOrderExact(a: seq<bytes>)
    ensures SameInAnyPayloadOrder(a) <==>
            if AllParse(a) then ClientHello(a).Err? || PayloadTie(a) else FailAlike(a)
  {
    hide Parse, ClientHello, PayloadTie;
    if !AllParse(a) {
      FailingPayloadsExact(a);
    } else if ClientHello(a).Err? || PayloadTie(a) {
      forall b: seq<bytes> | multiset(b) == multiset(a)
        ensures ClientHello(b) == ClientHello(a)
      {
        TiedHello(a, b);
      }
    } else {
      UntiedHello(a);
    }
  }

  /** Payloads cut from one handshake stream are reassembled alike in every order. */
  lemma ConsistentPayloads(a: seq<bytes>, b: seq<bytes>, stream: bytes)
    requires multiset(a) == multiset(b) && AllParse(a)
    requires ParseAll(a).Ok? ==> forall s | s in ParseAll(a).value :: Agrees(s, stream)
    ensures ClientHello(a) == ClientHello(b)
  {
    hide Parse, ParseAll, Reassemble;
    PermutedSegments(a, b);
    OrderIndependent(ParseAll(a).value, ParseAll(b).value, stream);
  }

  /** A cut-off payload and one with a foreign frame: the first to arrive decides the error. */
  lemma ErrorDependsOnOrder()
    ensures ClientHello([[0x40], [0x1f]]) == Err(VarIntTruncated)
    ensures ClientHello([[0x1f], [0x40]]) == Err(MalformedClientHello)
  {
    FirstError([0x40], [0x1f]);
    FirstError([0x1f], [0x40]);
    OneByteType(0x1f, []);
    assert [0x1f] + [] == [0x1f];
  }

  lemma FirstError(x: bytes, y: bytes)
    ensures Parse(x).Err? ==> ClientHello([x, y]) == Err(Parse(x).error)
  {
    hide Parse;
  }
}
