/** HTTP Datagrams and the routes that hand them to the tunnels of a connection. */
module Datagrams {
  import opened Bytes
  import opened Capsules
  import Varint

  function EncodeDatagram(streamId: nat, payload: bytes): (s: bytes)
    requires streamId < Varint.MAX_VALUE
  {
    Varint.Encode(streamId / 4) + Varint.Encode(CONTEXT_ID) + payload
  }

  /** Quarter stream id, context id and payload; None when a varint is truncated. */
  function ReadDatagram(s: bytes): (r: Option<(nat, nat, bytes)>)
  {
    Varint.DecodeBounds(s);
    match Varint.Decode(s)
    case None => None
    case Some((quarter, n)) =>
      Varint.DecodeBounds(s[n..]);
      match Varint.Decode(s[n..])
      case None => None
      case Some((context, m)) => Some((quarter, context, s[n + m..]))
  }

  lemma DatagramRoundTrip(streamId: nat, payload: bytes)
    requires streamId < Varint.MAX_VALUE
    ensures ReadDatagram(EncodeDatagram(streamId, payload)) == Some((streamId / 4, CONTEXT_ID, payload))
  {
    hide Varint.Decode, Varint.Encode;
    var a, b := Varint.Encode(streamId / 4), Varint.Encode(CONTEXT_ID);
    assert EncodeDatagram(streamId, payload) == a + (b + payload);
    Varint.RoundTrip(streamId / 4, b + payload);
    Varint.RoundTrip(CONTEXT_ID, payload);
    CutPrefix(a, b + payload);
  }

  /** How many datagrams a tunnel's channel holds before more are dropped. */
  const QUEUE: nat := 256

  /** The connection's live CONNECT-UDP tunnels by quarter stream id, with what their channels hold. */
  class DatagramRoutes {
    var routes: map<nat, seq<bytes>>

    constructor ()
      ensures routes == map[]
    {
      routes := map[];
    }

    method Register(quarter: nat)
      modifies this
      ensures routes == old(routes)[quarter := []]
    {
      routes := routes[quarter := []];
    }

    method Unregister(quarter: nat)
      modifies this
      ensures routes == old(routes) - {quarter}
    {
      routes := routes - {quarter};
    }

    /** Queues a payload on the route of its stream if there is one with room. */
    method Route(datagram: bytes)
      modifies this
      ensures match ReadDatagram(datagram)
              case None => routes == old(routes)
              case Some((quarter, context, payload)) =>
                routes == if context == CONTEXT_ID && quarter in old(routes) && |old(routes)[quarter]| < QUEUE
                          then old(routes)[quarter := old(routes)[quarter] + [payload]]
                          else old(routes)
    {
      var d := ReadDatagram(datagram);
      if d.None? || d.value.1 != CONTEXT_ID {
        return;
      }
      if d.value.0 in routes && |routes[d.value.0]| < QUEUE {
        routes := routes[d.value.0 := routes[d.value.0] + [d.value.2]];
      }
    }

    /** The tunnel's pump takes the payload that has waited longest. */
    method Take(quarter: nat) returns (payload: Option<bytes>)
      modifies this
      ensures if quarter in old(routes) && old(routes)[quarter] != []
              then
                && payload == Some(old(routes)[quarter][0])
                && routes == old(routes)[quarter := old(routes)[quarter][1..]]
              else payload == None && routes == old(routes)
    {
      if quarter !in routes || routes[quarter] == [] {
        return None;
      }
      payload := Some(routes[quarter][0]);
      routes := routes[quarter := routes[quarter][1..]];
    }

    /** What one end sends for a stream reaches that stream's tunnel on the other, and no other tunnel. */
    method Deliver(streamId: nat, payload: bytes)
      requires streamId < Varint.MAX_VALUE
      modifies this
      ensures var quarter := streamId / 4;
              routes == if quarter in old(routes) && |old(routes)[quarter]| < QUEUE
                        then old(routes)[quarter := old(routes)[quarter] + [payload]]
                        else old(routes)
    {
      hide ReadDatagram, EncodeDatagram;
      DatagramRoundTrip(streamId, payload);
      Route(EncodeDatagram(streamId, payload));
    }
  }

  // ---- Whole runs ----

  /** What happens to the routes of a connection, in any order. */
  datatype RouteStep =
    | Opened(quarter: nat)
    | Closed(quarter: nat)
    | Arrived(datagram: bytes) // whatever the peer put in it
    | Taken(quarter: nat)

  /** The UDP payload a datagram carries for a stream, if it does. */
  function PayloadFor(datagram: bytes, quarter: nat): (payload: Option<bytes>)
  {
    match ReadDatagram(datagram)
    case None => None
    case Some((q, context, payload)) => if q == quarter && context == CONTEXT_ID then Some(payload) else None
  }

  /** What one end encodes for a stream is for that stream and no other. */
  lemma EncodedIsFor(streamId: nat, payload: bytes, quarter: nat)
    requires streamId < Varint.MAX_VALUE
    ensures PayloadFor(EncodeDatagram(streamId, payload), quarter) ==
            if quarter == streamId / 4 then Some(payload) else None
  {
    DatagramRoundTrip(streamId, payload);
  }

  /** The step concerns the route of a stream. */
  predicate Concerns(step: RouteStep, quarter: nat) {
    if step.Arrived? then PayloadFor(step.datagram, quarter).Some? else step.quarter == quarter
  }

  /** One stream's route: what its pump got since it was opened, and what waits. */
  datatype RouteState = Absent | Live(got: seq<bytes>, waiting: seq<bytes>)

  function StepRoute(r: RouteState, step: RouteStep, quarter: nat): (r': RouteState)
    requires Concerns(step, quarter)
  {
    match step
    case Opened(_) => Live([], [])
    case Closed(_) => Absent
    case Arrived(datagram) =>
      if r.Live? && |r.waiting| < QUEUE then Live(r.got, r.waiting + [PayloadFor(datagram, quarter).value]) else r
    case Taken(_) =>
      if r.Live? && r.waiting != [] then Live(r.got + [r.waiting[0]], r.waiting[1..]) else r
  }

  /** One stream's route after a run: only the steps that name the stream count. */
  function RouteAfter(steps: seq<RouteStep>, quarter: nat): (r: RouteState)
  {
    if steps == [] then Absent
    else
      var n := |steps| - 1;
      var r := RouteAfter(steps[..n], quarter);
      if Concerns(steps[n], quarter) then StepRoute(r, steps[n], quarter) else r
  }

  /** The map of all routes is every stream's own route. */
  predicate Tracks(routes: map<nat, seq<bytes>>, got: map<nat, seq<bytes>>, quarter: nat, r: RouteState) {
    match r
    case Absent => quarter !in routes
    case Live(g, w) => quarter in routes && routes[quarter] == w && quarter in got && got[quarter] == g
  }

  /** Any run of the shared route table is, for every stream, the run of that stream's route alone. */
  method RunRoutes(steps: seq<RouteStep>) returns (routes: map<nat, seq<bytes>>, got: map<nat, seq<bytes>>)
    ensures forall q: nat :: Tracks(routes, got, q, RouteAfter(steps, q))
  {
    var table := new DatagramRoutes();
    got := map[];
    for i := 0 to |steps|
      invariant fresh(table)
      invariant forall q: nat :: Tracks(table.routes, got, q, RouteAfter(steps[..i], q))
    {
      ghost var before := table.routes;
      ghost var gotBefore := got;
      assert steps[..i + 1][..i] == steps[..i];
      match steps[i]
      case Opened(q) =>
        table.Register(q);
        got := got[q := []];
      case Closed(q) => table.Unregister(q);
      case Arrived(datagram) => table.Route(datagram);
      case Taken(q) =>
        assert Tracks(before, gotBefore, q, RouteAfter(steps[..i], q));
        var payload := table.Take(q);
        if payload.Some? {
          got := got[q := got[q] + [payload.value]];
        }
      ghost var done := steps[..i + 1];
      forall q: nat
        ensures Tracks(table.routes, got, q, RouteAfter(done, q))
      {
        assert Tracks(before, gotBefore, q, RouteAfter(steps[..i], q));
      }
    }
    assert steps[..|steps|] == steps;
    routes := table.routes;
  }

  /** The payloads sent to a stream, in order. */
  function SentTo(steps: seq<RouteStep>, quarter: nat): (s: seq<bytes>)
  {
    if steps == [] then []
    else
      var n := |steps| - 1;
      SentTo(steps[..n], quarter) +
      if steps[n].Arrived? && Concerns(steps[n], quarter) then [PayloadFor(steps[n].datagram, quarter).value] else []
  }

  /** `a` is `b` with some elements left out. */
  predicate Subsequence(a: seq<bytes>, b: seq<bytes>)
    decreases |b|
  {
    a == [] ||
    (&& b != []
     && (|| Subsequence(a, b[..|b| - 1])
         || (a[|a| - 1] == b[|b| - 1] && Subsequence(a[..|a| - 1], b[..|b| - 1]))))
  }

  /** Neither opened nor closed again. */
  predicate StaysOpen(steps: seq<RouteStep>, quarter: nat) {
    forall i | 0 <= i < |steps| && Concerns(steps[i], quarter) :: !steps[i].Opened? && !steps[i].Closed?
  }

  predicate NothingTaken(steps: seq<RouteStep>, quarter: nat) {
    forall i | 0 <= i < |steps| && Concerns(steps[i], quarter) :: !steps[i].Taken?
  }

  function FirstOf(s: seq<bytes>, n: nat): (r: seq<bytes>)
  {
    if |s| <= n then s else s[..n]
  }

  /** What holds of a route since it was opened, in terms of what was sent to it. */
  predicate Fifo(r: RouteState, sent: seq<bytes>, taken: bool) {
    && r.Live? && |r.waiting| <= 256
    && Subsequence(r.got + r.waiting, sent)
    && (|sent| <= 256 ==> r.got + r.waiting == sent)
    && (!taken ==> r.got == [] && r.waiting == FirstOf(sent, 256))
  }

  lemma FifoStep(r: RouteState, sent: seq<bytes>, taken: bool, step: RouteStep, quarter: nat)
    requires Fifo(r, sent, taken) && (step.Arrived? || step.Taken?) && Concerns(step, quarter)
    ensures var sent' := if step.Arrived? then sent + [PayloadFor(step.datagram, quarter).value] else sent;
            Fifo(StepRoute(r, step, quarter), sent', taken || step.Taken?)
  {
    hide Subsequence, PayloadFor;
    match step
    case Arrived(datagram) =>
      var payload := PayloadFor(datagram, quarter).value;
      SubsequenceSnoc(r.got + r.waiting, sent, payload);
      assert r.got + (r.waiting + [payload]) == r.got + r.waiting + [payload];
      assert |sent| >= QUEUE ==> FirstOf(sent + [payload], QUEUE) == FirstOf(sent, QUEUE);
    case Taken(_) =>
      assert r.waiting != [] ==> r.got + [r.waiting[0]] + r.waiting[1..] == r.got + r.waiting;
  }

  lemma SubsequenceSnoc(a: seq<bytes>, b: seq<bytes>, last: bytes)
    requires Subsequence(a, b)
    ensures Subsequence(a + [last], b + [last]) && Subsequence(a, b + [last])
  {
    assert (b + [last])[..|b|] == b && (a + [last])[..|a|] == a;
  }

  /**
    * Since a route was opened, what its pump got and what still waits is what was
    * sent to its stream, in order: all of it up to 256 payloads, and never more than
    * 256 waiting beyond that. If the pump took nothing, exactly the first 256 wait.
    */
  lemma {:induction false} RouteIsFifo(before: seq<RouteStep>, quarter: nat, after: seq<RouteStep>)
    requires StaysOpen(after, quarter)
    ensures Fifo(RouteAfter(before + [Opened(quarter)] + after, quarter), SentTo(after, quarter),
                 !NothingTaken(after, quarter))
    decreases |after|
  {
    hide Fifo, StepRoute, NothingTaken, PayloadFor, SentTo, RouteAfter;
    var start := before + [Opened(quarter)];
    if after == [] {
      assert start + after == start;
      JustOpened(before, quarter);
    } else {
      var n := |after| - 1;
      var rest, last := after[..n], after[n];
      assert after == rest + [last] && start + after == start + rest + [last];
      RouteIsFifo(before, quarter, rest);
      RunSnoc(start + rest, last, quarter);
      RunSnoc(rest, last, quarter);
      TakenSnoc(rest, last, quarter);
      if Concerns(last, quarter) {
        FifoStep(RouteAfter(start + rest, quarter), SentTo(rest, quarter), !NothingTaken(rest, quarter), last, quarter);
      }
    }
  }

  lemma JustOpened(before: seq<RouteStep>, quarter: nat)
    ensures Fifo(RouteAfter(before + [Opened(quarter)], quarter), SentTo([], quarter), !NothingTaken([], quarter))
  {
    assert RouteAfter(before + [Opened(quarter)], quarter) == Live([], []);
  }

  lemma RunSnoc(steps: seq<RouteStep>, last: RouteStep, quarter: nat)
    ensures var r := RouteAfter(steps, quarter);
            RouteAfter(steps + [last], quarter) == if Concerns(last, quarter) then StepRoute(r, last, quarter) else r
    ensures var sent := SentTo(steps, quarter);
            SentTo(steps + [last], quarter) ==
            if last.Arrived? && Concerns(last, quarter) then sent + [PayloadFor(last.datagram, quarter).value] else sent
  {
    hide StepRoute, PayloadFor;
    assert (steps + [last])[..|steps|] == steps;
    assert SentTo(steps, quarter) + [] == SentTo(steps, quarter);
  }

  lemma TakenSnoc(rest: seq<RouteStep>, last: RouteStep, quarter: nat)
    ensures NothingTaken(rest + [last], quarter) <==>
            NothingTaken(rest, quarter) && (Concerns(last, quarter) ==> !last.Taken?)
  {
    var all := rest + [last];
    assert all[|rest|] == last;
    assert forall i | 0 <= i < |rest| :: all[i] == rest[i];
  }

  /** A closed route is gone until it is opened again, and so is one that never was opened. */
  lemma {:induction false} NotOpenIsAbsent(before: seq<RouteStep>, quarter: nat, after: seq<RouteStep>)
    requires before == [] || before[|before| - 1] == Closed(quarter)
    requires forall i | 0 <= i < |after| :: after[i] != Opened(quarter)
    ensures RouteAfter(before + after, quarter) == Absent
    decreases |after|
  {
    hide PayloadFor;
    if after == [] {
      assert before + after == before;
    } else {
      var n := |after| - 1;
      assert before + after == before + after[..n] + [after[n]];
      NotOpenIsAbsent(before, quarter, after[..n]);
      RunSnoc(before + after[..n], after[n], quarter);
    }
  }

  /** Stream 8 and the payload 68 69 are the datagram 02 00 68 69. */
  lemma DatagramBytes()
    ensures EncodeDatagram(8, [0x68, 0x69]) == [0x02, 0x00, 0x68, 0x69]
  {
    assert Varint.ToBigEndian(2, 0) == [] && Varint.ToBigEndian(0, 0) == [];
    assert Varint.Encode(2) == [2] && Varint.Encode(0) == [0];
  }
}
