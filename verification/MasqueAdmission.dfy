/** Admission and tunnel budget of one MASQUE connection, over every interleaving of its requests. */
module MasqueAdmission {
  import opened Arith
  import opened Bytes

  type Target = string

  type RequestId = nat

  /** The tunnel cap and the egress policy a deployer sets. */
  datatype Config = Config(cap: nat, permits: Target -> bool)

  datatype Kind = Tcp | Udp

  /** How far a request that holds a tunnel slot has got. */
  datatype Phase =
    | Slotted(kind: Kind)      // holds a slot, target not read yet
    | Targeted(target: Target) // target parsed
    | Judged(target: Target)   // permitted by the policy
    | Verifying(target: Target) // its credential is with the admitter
    | Rejected                  // its credential did not verify; a response is on its way
    | Admitted(target: Target) // on an admitted connection
    | Dialed(target: Target)   // upstream dialed

  datatype Event =
    | Announce(supported: bool)                 // the peer's SETTINGS, on HTTP Datagrams
    | Slot(r: RequestId, kind: Kind)
    | Release(r: RequestId)
    | Name(r: RequestId, kind: Kind, target: Target) // the request's target was read
    | Permit(r: RequestId, target: Target)
    | VerifyStart(r: RequestId)
    | VerifyOk(r: RequestId)
    | VerifyFail(r: RequestId)
    | Dial(r: RequestId, target: Target)

  /** The connection: the once-cell, its holder, the semaphore, the peer's SETTINGS, the live requests. */
  datatype Conn = Conn(
    admitted: bool,
    verifying: Option<RequestId>,
    free: nat,
    h3Datagram: Option<bool>,
    next: RequestId,
    requests: map<RequestId, Phase>,
    log: seq<Event>)

  function Open(cfg: Config): (c: Conn)
  {
    Conn(false, None, cfg.cap, None, 0, map[], [])
  }

  // ---- Steps ----

  datatype Step =
    | Settings(supported: bool)
    | Arrive(kind: Kind)
    | Resolve(r: RequestId, target: Target)
    | Judge(r: RequestId)
    | FindAdmitted(r: RequestId)
    | BeginVerify(r: RequestId)
    | EndVerify(r: RequestId, ok: bool)
    | DialTarget(r: RequestId)
    | Leave(r: RequestId)

  predicate At(c: Conn, r: RequestId) {
    r in c.requests
  }

  /** When a step may be taken. A request waits at the once-cell while another holds it. */
  predicate Enabled(cfg: Config, c: Conn, s: Step) {
    match s
    case Settings(_) => true
    case Arrive(_) => true
    case Resolve(r, _) =>
      At(c, r) && c.requests[r].Slotted? && (c.requests[r].kind == Tcp || c.h3Datagram == Some(true))
    case Judge(r) => At(c, r) && c.requests[r].Targeted? && cfg.permits(c.requests[r].target)
    case FindAdmitted(r) => At(c, r) && c.requests[r].Judged? && c.admitted
    case BeginVerify(r) => At(c, r) && c.requests[r].Judged? && !c.admitted && c.verifying.None?
    case EndVerify(r, _) => At(c, r) && c.requests[r].Verifying?
    case DialTarget(r) => At(c, r) && c.requests[r].Admitted?
    case Leave(r) => At(c, r)
  }

  /** A request ends, for any reason: its slot goes back, and the once-cell if it held that. */
  function End(c: Conn, r: RequestId): (c': Conn)
    requires At(c, r)
  {
    var failed := if c.requests[r].Verifying? then [VerifyFail(r)] else [];
    c.(free := c.free + 1,
       verifying := if c.requests[r].Verifying? then None else c.verifying,
       requests := c.requests - {r},
       log := c.log + failed + [Release(r)])
  }

  function Move(c: Conn, r: RequestId, p: Phase, events: seq<Event>): (c': Conn)
  {
    c.(requests := c.requests[r := p], log := c.log + events)
  }

  function Next(cfg: Config, c: Conn, s: Step): (c': Conn)
    requires Enabled(cfg, c, s)
  {
    match s
    case Settings(supported) => c.(h3Datagram := Some(supported), log := c.log + [Announce(supported)])
    case Arrive(kind) =>
      var c1 := c.(next := c.next + 1);
      if c.free == 0 then c1 else Move(c1.(free := c.free - 1), c.next, Slotted(kind), [Slot(c.next, kind)])
    case Resolve(r, target) => Move(c, r, Targeted(target), [Name(r, c.requests[r].kind, target)])
    case Judge(r) => var t := c.requests[r].target; Move(c, r, Judged(t), [Permit(r, t)])
    case FindAdmitted(r) => Move(c, r, Admitted(c.requests[r].target), [])
    case BeginVerify(r) =>
      Move(c.(verifying := Some(r)), r, Verifying(c.requests[r].target), [VerifyStart(r)])
    case EndVerify(r, ok) =>
      if ok then
        Move(c.(verifying := None, admitted := true), r, Admitted(c.requests[r].target), [VerifyOk(r)])
      else Move(c.(verifying := None), r, Rejected, [VerifyFail(r)])
    case DialTarget(r) => var t := c.requests[r].target; Move(c, r, Dialed(t), [Dial(r, t)])
    case Leave(r) => End(c, r)
  }

  /** A run from a fresh connection. */
  ghost predicate IsRun(cfg: Config, steps: seq<Step>, c: Conn)
    decreases |steps|
  {
    if steps == [] then c == Open(cfg)
    else
      var last := steps[|steps| - 1];
      exists b :: IsRun(cfg, steps[..|steps| - 1], b) && Enabled(cfg, b, last) && c == Next(cfg, b, last)
  }

  // ---- What the history must look like ----

  function HoldersAfter(rs: set<RequestId>, e: Event): (rs': set<RequestId>)
  {
    match e
    case Slot(r, _) => rs + {r}
    case Release(r) => rs - {r}
    case _ => rs
  }

  function VerifierAfter(v: Option<RequestId>, e: Event): (v': Option<RequestId>)
  {
    match e
    case VerifyStart(r) => Some(r)
    case VerifyOk(_) => None
    case VerifyFail(_) => None
    case _ => v
  }

  /** The requests that hold a slot after `h`. */
  function Holders(h: seq<Event>): (rs: set<RequestId>)
  {
    if h == [] then {} else HoldersAfter(Holders(h[..|h| - 1]), h[|h| - 1])
  }

  /** The request whose verification is running after `h`. */
  function Verifier(h: seq<Event>): (v: Option<RequestId>)
  {
    if h == [] then None else VerifierAfter(Verifier(h[..|h| - 1]), h[|h| - 1])
  }

  /** What the peer last said of HTTP Datagrams in `h`. */
  function Announced(h: seq<Event>): (b: Option<bool>)
  {
    if h == [] then None
    else
      var n := |h| - 1;
      if h[n].Announce? then Some(h[n].supported) else Announced(h[..n])
  }

  predicate WasNamed(h: seq<Event>, r: RequestId, t: Target) {
    Name(r, Tcp, t) in h || Name(r, Udp, t) in h
  }

  predicate HasSucceeded(h: seq<Event>) {
    exists e | e in h :: e.VerifyOk?
  }

  predicate WasPermitted(h: seq<Event>, r: RequestId) {
    exists e | e in h :: e.Permit? && e.r == r
  }

  /** What must be true of the history when an event happens. */
  predicate Justified(cfg: Config, h: seq<Event>, e: Event) {
    match e
    case Announce(_) => true
    case Slot(r, _) => r !in Holders(h) && |Holders(h)| < cfg.cap
    case Release(r) => r in Holders(h)
    case Name(r, kind, _) => r in Holders(h) && Slot(r, kind) in h && (kind == Udp ==> Announced(h) == Some(true))
    case Permit(r, t) => r in Holders(h) && WasNamed(h, r, t) && cfg.permits(t)
    case VerifyStart(r) => r in Holders(h) && WasPermitted(h, r) && Verifier(h).None? && !HasSucceeded(h)
    case VerifyOk(r) => Verifier(h) == Some(r)
    case VerifyFail(r) => Verifier(h) == Some(r)
    case Dial(r, t) => r in Holders(h) && Permit(r, t) in h && cfg.permits(t) && HasSucceeded(h)
  }

  /** Every event of the history was justified when it happened. */
  predicate Safe(cfg: Config, log: seq<Event>) {
    forall i | 0 <= i < |log| :: Justified(cfg, log[..i], log[i])
  }

  // ---- The invariant ----

  predicate PhaseBacked(cfg: Config, c: Conn, r: RequestId, p: Phase) {
    match p
    case Slotted(kind) => Slot(r, kind) in c.log
    case Targeted(t) => WasNamed(c.log, r, t)
    case Rejected => true
    case Judged(t) => Permit(r, t) in c.log && cfg.permits(t)
    case Verifying(t) => Permit(r, t) in c.log && cfg.permits(t) && c.verifying == Some(r)
    case Admitted(t) => Permit(r, t) in c.log && cfg.permits(t) && c.admitted
    case Dialed(t) => Permit(r, t) in c.log && cfg.permits(t) && c.admitted
  }

  /** A safe history together with the accounts it amounts to. */
  predicate Accounts(cfg: Config, log: seq<Event>, holders: set<RequestId>, verifier: Option<RequestId>, ok: bool) {
    Safe(cfg, log) && holders == Holders(log) && verifier == Verifier(log) && (ok <==> HasSucceeded(log))
  }

  predicate Inv(cfg: Config, c: Conn) {
    && Accounts(cfg, c.log, c.requests.Keys, c.verifying, c.admitted)
    && c.free + |c.requests| == cfg.cap
    && (c.admitted ==> c.verifying.None?)
    && c.h3Datagram == Announced(c.log)
    && (c.verifying.Some? ==> At(c, c.verifying.value) && c.requests[c.verifying.value].Verifying?)
    && (forall r | r in c.requests :: r < c.next && PhaseBacked(cfg, c, r, c.requests[r]))
  }

  lemma SafeSnoc(cfg: Config, h: seq<Event>, e: Event)
    requires Safe(cfg, h) && Justified(cfg, h, e)
    ensures Safe(cfg, h + [e])
  {
    hide Justified;
    var log := h + [e];
    forall i | 0 <= i < |log|
      ensures Justified(cfg, log[..i], log[i])
    {
      if i < |h| {
        assert log[..i] == h[..i];
      } else {
        assert log[..i] == h;
      }
    }
  }

  /** A justified event extends a safe history, and moves its accounts by itself alone. */
  lemma Record(cfg: Config, log: seq<Event>, holders: set<RequestId>, verifier: Option<RequestId>, ok: bool, e: Event)
    requires Accounts(cfg, log, holders, verifier, ok) && Justified(cfg, log, e)
    ensures Accounts(cfg, log + [e], HoldersAfter(holders, e), VerifierAfter(verifier, e), ok || e.VerifyOk?)
    ensures Announced(log + [e]) == if e.Announce? then Some(e.supported) else Announced(log)
    ensures forall x | x in log :: x in log + [e]
    ensures e in log + [e]
  {
    SafeSnoc(cfg, log, e);
    hide Safe, Justified;
    var h := log + [e];
    assert h[..|h| - 1] == log && h[|h| - 1] == e;
    assert forall x :: x in h <==> x in log || x == e;
  }

  lemma InitialInv(cfg: Config)
    ensures Inv(cfg, Open(cfg))
  {
  }

  lemma SameSize(c: Conn, r: RequestId, p: Phase)
    requires r in c.requests
    ensures c.requests[r := p].Keys == c.requests.Keys && |c.requests[r := p]| == |c.requests|
  {
    assert |c.requests[r := p]| == |c.requests[r := p].Keys|;
    assert |c.requests| == |c.requests.Keys|;
  }

  lemma MoreRequests(c: Conn, r: RequestId, p: Phase)
    requires r !in c.requests
    ensures c.requests[r := p].Keys == c.requests.Keys + {r} && |c.requests[r := p]| == |c.requests| + 1
  {
    assert |c.requests[r := p]| == |c.requests[r := p].Keys|;
    assert |c.requests| == |c.requests.Keys|;
  }

  lemma FewerRequests(c: Conn, r: RequestId)
    requires r in c.requests
    ensures (c.requests - {r}).Keys == c.requests.Keys - {r} && |c.requests - {r}| == |c.requests| - 1
  {
    var fewer := c.requests - {r};
    assert fewer.Keys == c.requests.Keys - {r};
    assert |c.requests| == |c.requests.Keys| && |fewer| == |fewer.Keys|;
  }

  lemma ArriveInv(cfg: Config, c: Conn, kind: Kind)
    requires Inv(cfg, c) && c.free > 0
    ensures Inv(cfg, Next(cfg, c, Arrive(kind)))
  {
    hide Safe, Holders, Verifier, HasSucceeded, Announced;
    MoreRequests(c, c.next, Slotted(kind));
    assert |c.requests| == |c.requests.Keys|;
    Record(cfg, c.log, c.requests.Keys, c.verifying, c.admitted, Slot(c.next, kind));
    hide Accounts, Justified;
    var c' := Next(cfg, c, Arrive(kind));
    forall q | q in c'.requests
      ensures q < c'.next && PhaseBacked(cfg, c', q, c'.requests[q])
    {
      if q != c.next {
        assert PhaseBacked(cfg, c, q, c.requests[q]);
      }
    }
  }

  /** A request that moves on in silence. */
  lemma QuietInv(cfg: Config, c: Conn, r: RequestId, p: Phase)
    requires Inv(cfg, c) && r in c.requests && !c.requests[r].Verifying? && PhaseBacked(cfg, c, r, p)
    ensures Inv(cfg, Move(c, r, p, []))
  {
    hide Accounts;
    assert c.log + [] == c.log;
    SameSize(c, r, p);
  }

  /** A request that moves on with an event, given that the event and its new phase are backed. */
  lemma MoveInv(cfg: Config, c: Conn, c': Conn, r: RequestId, p: Phase, e: Event)
    requires Inv(cfg, c) && r in c.requests && Justified(cfg, c.log, e) && !e.Slot? && !e.Release? && !e.Announce?
    requires
      c' == Move(c.(verifying := VerifierAfter(c.verifying, e), admitted := c.admitted || e.VerifyOk?), r, p, [e])
    requires PhaseBacked(cfg, c', r, p) && (c'.admitted ==> c'.verifying.None?)
    requires c'.verifying == c.verifying || c'.verifying.None? || c'.verifying == Some(r)
    requires c'.verifying == c.verifying || c.verifying.None? || c.verifying == Some(r)
    requires c'.verifying == Some(r) ==> p.Verifying?
    ensures Inv(cfg, c')
  {
    hide Safe, Justified;
    Record(cfg, c.log, c.requests.Keys, c.verifying, c.admitted, e);
    hide Accounts;
    SameSize(c, r, p);
    forall q | q in c'.requests
      ensures q < c'.next && PhaseBacked(cfg, c', q, c'.requests[q])
    {
      if q != r {
        assert PhaseBacked(cfg, c, q, c.requests[q]);
      }
    }
  }

  lemma ResolveInv(cfg: Config, c: Conn, r: RequestId, target: Target)
    requires Inv(cfg, c) && Enabled(cfg, c, Resolve(r, target))
    ensures Inv(cfg, Next(cfg, c, Resolve(r, target)))
  {
    hide Safe, Holders, Verifier, HasSucceeded, Announced;
    var kind := c.requests[r].kind;
    assert PhaseBacked(cfg, c, r, Slotted(kind));
    MoveInv(cfg, c, Next(cfg, c, Resolve(r, target)), r, Targeted(target), Name(r, kind, target));
  }

  lemma SettingsInv(cfg: Config, c: Conn, supported: bool)
    requires Inv(cfg, c)
    ensures Inv(cfg, Next(cfg, c, Settings(supported)))
  {
    hide Safe, Justified, Holders, Verifier, HasSucceeded;
    assert Justified(cfg, c.log, Announce(supported)) by {
      AnnouncingIsJustified(cfg, c.log, supported);
    }
    Record(cfg, c.log, c.requests.Keys, c.verifying, c.admitted, Announce(supported));
    hide Accounts;
    var c' := Next(cfg, c, Settings(supported));
    forall q | q in c'.requests
      ensures q < c'.next && PhaseBacked(cfg, c', q, c'.requests[q])
    {
      assert PhaseBacked(cfg, c, q, c.requests[q]);
    }
  }

  lemma AnnouncingIsJustified(cfg: Config, log: seq<Event>, supported: bool)
    ensures Justified(cfg, log, Announce(supported))
  {
  }

  lemma JudgeInv(cfg: Config, c: Conn, r: RequestId)
    requires Inv(cfg, c) && Enabled(cfg, c, Judge(r))
    ensures Inv(cfg, Next(cfg, c, Judge(r)))
  {
    hide Safe, Holders, Verifier, HasSucceeded;
    var t := c.requests[r].target;
    assert PhaseBacked(cfg, c, r, Targeted(t));
    MoveInv(cfg, c, Next(cfg, c, Judge(r)), r, Judged(t), Permit(r, t));
  }

  lemma BeginInv(cfg: Config, c: Conn, r: RequestId)
    requires Inv(cfg, c) && Enabled(cfg, c, BeginVerify(r))
    ensures Inv(cfg, Next(cfg, c, BeginVerify(r)))
  {
    hide Safe, Holders, Verifier, HasSucceeded;
    var t := c.requests[r].target;
    assert PhaseBacked(cfg, c, r, Judged(t));
    MoveInv(cfg, c, Next(cfg, c, BeginVerify(r)), r, Verifying(t), VerifyStart(r));
  }

  lemma SucceedInv(cfg: Config, c: Conn, r: RequestId)
    requires Inv(cfg, c) && Enabled(cfg, c, EndVerify(r, true))
    ensures Inv(cfg, Next(cfg, c, EndVerify(r, true)))
  {
    hide Safe, Holders, Verifier, HasSucceeded;
    var t := c.requests[r].target;
    assert PhaseBacked(cfg, c, r, Verifying(t));
    MoveInv(cfg, c, Next(cfg, c, EndVerify(r, true)), r, Admitted(t), VerifyOk(r));
  }

  lemma FailInv(cfg: Config, c: Conn, r: RequestId)
    requires Inv(cfg, c) && Enabled(cfg, c, EndVerify(r, false))
    ensures Inv(cfg, Next(cfg, c, EndVerify(r, false)))
  {
    hide Safe, Holders, Verifier, HasSucceeded;
    assert PhaseBacked(cfg, c, r, c.requests[r]);
    MoveInv(cfg, c, Next(cfg, c, EndVerify(r, false)), r, Rejected, VerifyFail(r));
  }

  lemma DialInv(cfg: Config, c: Conn, r: RequestId)
    requires Inv(cfg, c) && Enabled(cfg, c, DialTarget(r))
    ensures Inv(cfg, Next(cfg, c, DialTarget(r)))
  {
    hide Safe, Holders, Verifier, HasSucceeded;
    var t := c.requests[r].target;
    assert PhaseBacked(cfg, c, r, Admitted(t));
    MoveInv(cfg, c, Next(cfg, c, DialTarget(r)), r, Dialed(t), Dial(r, t));
  }

  /** The history of a request that ends, and the accounts it amounts to. */
  lemma EndRecorded(cfg: Config, c: Conn, r: RequestId)
    requires Inv(cfg, c) && r in c.requests
    ensures var c' := End(c, r);
            && Accounts(cfg, c'.log, c.requests.Keys - {r}, c'.verifying, c.admitted)
            && Announced(c'.log) == Announced(c.log)
            && forall x | x in c.log :: x in c'.log
  {
    hide Safe, Holders, Verifier, HasSucceeded, Announced;
    var h, verifier := c.log, c.verifying;
    if c.requests[r].Verifying? {
      assert PhaseBacked(cfg, c, r, c.requests[r]);
      Record(cfg, h, c.requests.Keys, verifier, c.admitted, VerifyFail(r));
      h, verifier := h + [VerifyFail(r)], None;
    } else {
      assert c.log + [] == c.log;
    }
    assert Accounts(cfg, h, c.requests.Keys, verifier, c.admitted);
    Record(cfg, h, c.requests.Keys, verifier, c.admitted, Release(r));
  }

  lemma EndInv(cfg: Config, c: Conn, r: RequestId)
    requires Inv(cfg, c) && r in c.requests
    ensures Inv(cfg, End(c, r))
  {
    hide Accounts, Announced;
    EndRecorded(cfg, c, r);
    FewerRequests(c, r);
    var c' := End(c, r);
    forall q | q in c'.requests
      ensures q < c'.next && PhaseBacked(cfg, c', q, c'.requests[q])
    {
      assert PhaseBacked(cfg, c, q, c.requests[q]);
    }
  }

  /** The steps that log nothing. */
  lemma UnloggedInv(cfg: Config, c: Conn, s: Step)
    requires Inv(cfg, c) && Enabled(cfg, c, s)
    requires s.FindAdmitted? || (s.Arrive? && c.free == 0)
    ensures Inv(cfg, Next(cfg, c, s))
  {
    hide Accounts;
    match s
    case FindAdmitted(r) => QuietInv(cfg, c, r, Admitted(c.requests[r].target));
    case _ =>
  }

  /** Every step keeps the invariant. */
  lemma StepInv(cfg: Config, c: Conn, s: Step)
    requires Inv(cfg, c) && Enabled(cfg, c, s)
    ensures Inv(cfg, Next(cfg, c, s))
  {
    hide Inv;
    match s
    case Arrive(kind) => if c.free > 0 { ArriveInv(cfg, c, kind); } else { UnloggedInv(cfg, c, s); }
    case Settings(supported) => SettingsInv(cfg, c, supported);
    case Resolve(r, target) => ResolveInv(cfg, c, r, target);
    case Judge(r) => JudgeInv(cfg, c, r);
    case BeginVerify(r) => BeginInv(cfg, c, r);
    case EndVerify(r, ok) => if ok { SucceedInv(cfg, c, r); } else { FailInv(cfg, c, r); }
    case DialTarget(r) => DialInv(cfg, c, r);
    case Leave(r) => EndInv(cfg, c, r);
    case _ => UnloggedInv(cfg, c, s);
  }

  // ---- Safety of every run ----

  /** In every interleaving, every event was justified, and live tunnels plus free slots are the cap. */
  lemma {:induction false} RunIsSafe(cfg: Config, steps: seq<Step>, c: Conn)
    requires IsRun(cfg, steps, c)
    ensures Inv(cfg, c)
    ensures Safe(cfg, c.log) && c.free + |c.requests| == cfg.cap
    decreases |steps|
  {
    hide Holders, Verifier, HasSucceeded;
    if steps == [] {
      InitialInv(cfg);
    } else {
      var last := steps[|steps| - 1];
      var b :| IsRun(cfg, steps[..|steps| - 1], b) && Enabled(cfg, b, last) && c == Next(cfg, b, last);
      RunIsSafe(cfg, steps[..|steps| - 1], b);
      StepInv(cfg, b, last);
    }
  }

  /** No verification starts, and none succeeds, once one has succeeded. */
  lemma NothingAfterSuccess(cfg: Config, log: seq<Event>, i: nat, j: nat)
    requires Safe(cfg, log) && i < j < |log| && log[i].VerifyOk?
    ensures !log[j].VerifyStart? && !log[j].VerifyOk?
  {
    hide Holders, Verifier, HasSucceeded;
    assert Justified(cfg, log[..j], log[j]);
    SucceededBy(log, i, j);
    if log[j].VerifyOk? {
      NoVerifierAfterSuccess(cfg, log, i, j);
    }
  }

  lemma VerifierAt(log: seq<Event>, j: nat)
    requires 0 < j <= |log|
    ensures Verifier(log[..j]) == VerifierAfter(Verifier(log[..j - 1]), log[j - 1])
  {
    assert log[..j][..j - 1] == log[..j - 1];
  }

  lemma SucceededBy(log: seq<Event>, i: nat, j: nat)
    requires i < j <= |log| && log[i].VerifyOk?
    ensures HasSucceeded(log[..j])
  {
    assert log[..j][i] == log[i];
  }

  lemma {:induction false} NoVerifierAfterSuccess(cfg: Config, log: seq<Event>, i: nat, j: nat)
    requires Safe(cfg, log) && i < j <= |log| && log[i].VerifyOk?
    ensures Verifier(log[..j]).None?
    decreases j
  {
    hide Holders, Verifier, HasSucceeded;
    VerifierAt(log, j);
    if i < j - 1 {
      NoVerifierAfterSuccess(cfg, log, i, j - 1);
      assert Justified(cfg, log[..j - 1], log[j - 1]);
      SucceededBy(log, i, j - 1);
    }
  }

  /** Two verifications never overlap: the first has ended when the second starts. */
  lemma OneVerificationAtATime(cfg: Config, log: seq<Event>, i: nat, j: nat)
    requires Safe(cfg, log) && i < j < |log| && log[i].VerifyStart? && log[j].VerifyStart?
    ensures exists k | i < k < j :: log[k] == VerifyOk(log[i].r) || log[k] == VerifyFail(log[i].r)
  {
    assert Justified(cfg, log[..j], log[j]);
    EndedBetween(cfg, log, i, j);
  }

  lemma {:induction false} EndedBetween(cfg: Config, log: seq<Event>, i: nat, j: nat)
    requires Safe(cfg, log) && i < j <= |log| && log[i].VerifyStart?
    ensures Verifier(log[..j]) == Some(log[i].r) ||
            exists k | i < k < j :: log[k] == VerifyOk(log[i].r) || log[k] == VerifyFail(log[i].r)
    decreases j
  {
    hide Holders, Verifier, HasSucceeded, WasPermitted;
    VerifierAt(log, j);
    if i < j - 1 {
      EndedBetween(cfg, log, i, j - 1);
      assert Justified(cfg, log[..j - 1], log[j - 1]);
    }
  }

  // ---- What can always happen ----

  predicate Possible(cfg: Config, c: Conn, steps: seq<Step>)
    decreases |steps|
  {
    steps == [] || (Enabled(cfg, c, steps[0]) && Possible(cfg, Next(cfg, c, steps[0]), steps[1..]))
  }

  function Reached(cfg: Config, c: Conn, steps: seq<Step>): (c': Conn)
    requires Possible(cfg, c, steps)
    decreases |steps|
  {
    if steps == [] then c else Reached(cfg, Next(cfg, c, steps[0]), steps[1..])
  }

  lemma StepThen(cfg: Config, c: Conn, s: Step, rest: seq<Step>)
    requires Enabled(cfg, c, s) && Possible(cfg, Next(cfg, c, s), rest)
    ensures Possible(cfg, c, [s] + rest) && Reached(cfg, c, [s] + rest) == Reached(cfg, Next(cfg, c, s), rest)
  {
    hide Next, Enabled;
    assert ([s] + rest)[1..] == rest;
  }

  /** In every reachable state an arrival gets a slot exactly when fewer than the cap hold one by the history. */
  lemma ArrivalExact(cfg: Config, steps: seq<Step>, c: Conn, kind: Kind)
    requires IsRun(cfg, steps, c)
    ensures var c' := Next(cfg, c, Arrive(kind));
            && (At(c', c.next) <==> |Holders(c.log)| < cfg.cap)
            && (At(c', c.next) ==>
                  c'.requests == c.requests[c.next := Slotted(kind)] && Holders(c'.log) == Holders(c.log) + {c.next})
            && (!At(c', c.next) ==> c'.requests == c.requests && c'.log == c.log)
  {
    hide IsRun, Safe, Holders, Verifier, HasSucceeded;
    RunIsSafe(cfg, steps, c);
    assert |c.requests| == |c.requests.Keys|;
    StepInv(cfg, c, Arrive(kind));
  }

  /** The end of any request makes room for another. */
  lemma LeaveMakesRoom(cfg: Config, steps: seq<Step>, c: Conn, r: RequestId, kind: Kind)
    requires IsRun(cfg, steps, c) && At(c, r)
    ensures var left := Next(cfg, c, Leave(r));
            r !in Holders(left.log) && At(Next(cfg, left, Arrive(kind)), left.next)
  {
    hide IsRun, Inv, Holders, Accounts;
    RunIsSafe(cfg, steps, c);
    NoLongerHolds(cfg, c, r);
    FreeAdmits(cfg, Next(cfg, c, Leave(r)), kind);
  }

  lemma NoLongerHolds(cfg: Config, c: Conn, r: RequestId)
    requires Inv(cfg, c) && At(c, r)
    ensures r !in Holders(End(c, r).log)
  {
    hide Safe, Holders, Verifier, HasSucceeded, Inv, End;
    EndRecorded(cfg, c, r);
  }

  lemma FreeAdmits(cfg: Config, c: Conn, kind: Kind)
    requires c.free > 0
    ensures At(Next(cfg, c, Arrive(kind)), c.next)
  {
  }

  /** From its slot to its dial, whoever verifies: the one verification that may be running ends first. */
  function DialSteps(c: Conn, r: RequestId, target: Target, ok: bool): (steps: seq<Step>)
  {
    var admitted := c.admitted || (c.verifying.Some? && ok);
    (if c.verifying.Some? then [EndVerify(c.verifying.value, ok)] else []) +
    ([Resolve(r, target), Judge(r)] +
     ((if admitted then [FindAdmitted(r)] else [BeginVerify(r), EndVerify(r, true)]) + [DialTarget(r)]))
  }

  lemma VerifiedDial(cfg: Config, c: Conn, r: RequestId, target: Target)
    requires At(c, r) && c.requests[r] == Judged(target) && c.verifying.None?
    ensures var steps := (if c.admitted then [FindAdmitted(r)] else [BeginVerify(r), EndVerify(r, true)]) +
                         [DialTarget(r)];
            && Possible(cfg, c, steps)
            && var c' := Reached(cfg, c, steps);
               At(c', r) && c'.requests[r] == Dialed(target) && Dial(r, target) in c'.log && c'.free == c.free
  {
    var dial := DialTarget(r);
    if c.admitted {
      var c1 := Next(cfg, c, FindAdmitted(r));
      StepThen(cfg, c1, dial, []);
      StepThen(cfg, c, FindAdmitted(r), [dial]);
    } else {
      var c1 := Next(cfg, c, BeginVerify(r));
      var c2 := Next(cfg, c1, EndVerify(r, true));
      StepThen(cfg, c2, dial, []);
      StepThen(cfg, c1, EndVerify(r, true), [dial]);
      StepThen(cfg, c, BeginVerify(r), [EndVerify(r, true), dial]);
      assert [BeginVerify(r)] + ([EndVerify(r, true)] + [dial]) == [BeginVerify(r), EndVerify(r, true)] + [dial];
      assert [EndVerify(r, true)] + [dial] == [EndVerify(r, true), dial];
    }
  }

  lemma SlottedDial(cfg: Config, c: Conn, r: RequestId, target: Target)
    requires At(c, r) && c.requests[r].Slotted? && cfg.permits(target) && c.verifying.None?
    requires c.requests[r].kind == Udp ==> c.h3Datagram == Some(true)
    ensures var steps := DialSteps(c, r, target, false);
            && Possible(cfg, c, steps)
            && var c' := Reached(cfg, c, steps);
               At(c', r) && c'.requests[r] == Dialed(target) && Dial(r, target) in c'.log && c'.free == c.free
  {
    var c1 := Next(cfg, c, Resolve(r, target));
    var c2 := Next(cfg, c1, Judge(r));
    VerifiedDial(cfg, c2, r, target);
    var rest := (if c.admitted then [FindAdmitted(r)] else [BeginVerify(r), EndVerify(r, true)]) + [DialTarget(r)];
    hide Possible, Reached;
    StepThen(cfg, c1, Judge(r), rest);
    StepThen(cfg, c, Resolve(r, target), [Judge(r)] + rest);
    assert [Resolve(r, target)] + ([Judge(r)] + rest) == [Resolve(r, target), Judge(r)] + rest;
    assert [] + ([Resolve(r, target), Judge(r)] + rest) == [Resolve(r, target), Judge(r)] + rest;
  }

  /**
    * From every reachable state a request with a slot whose target the policy permits (a
    * UDP one only where the peer announced datagrams) can be taken to the dial of that
    * target, with a credential that verifies, once the verification that may be running
    * has ended, well or not.
    */
  lemma CanAlwaysDial(cfg: Config, steps: seq<Step>, c: Conn, r: RequestId, target: Target, ok: bool)
    requires IsRun(cfg, steps, c)
    requires At(c, r) && c.requests[r].Slotted? && cfg.permits(target)
    requires c.requests[r].kind == Udp ==> c.h3Datagram == Some(true)
    ensures var path := DialSteps(c, r, target, ok);
            && Possible(cfg, c, path)
            && var c' := Reached(cfg, c, path);
               At(c', r) && c'.requests[r] == Dialed(target) && Dial(r, target) in c'.log && c'.free == c.free
  {
    RunIsSafe(cfg, steps, c);
    hide Accounts, Safe, IsRun;
    if c.verifying.Some? {
      var q := c.verifying.value;
      var c1 := Next(cfg, c, EndVerify(q, ok));
      SlottedDial(cfg, c1, r, target);
      StepThen(cfg, c, EndVerify(q, ok), DialSteps(c1, r, target, false));
      hide Possible, Reached;
      var rest := DialSteps(c1, r, target, false);
      var tail := [Resolve(r, target), Judge(r)] +
        ((if c1.admitted then [FindAdmitted(r)] else [BeginVerify(r), EndVerify(r, true)]) + [DialTarget(r)]);
      assert rest == [] + tail == tail;
      assert DialSteps(c, r, target, ok) == [EndVerify(q, ok)] + tail;
    } else {
      SlottedDial(cfg, c, r, target);
      assert DialSteps(c, r, target, ok) == DialSteps(c, r, target, false);
    }
  }

  /** A fresh connection with a slot to give reaches the dial of a permitted target, over TCP and over UDP. */
  lemma FirstDial(cfg: Config, kind: Kind, target: Target)
    requires cfg.cap > 0 && cfg.permits(target)
    ensures var steps := [Settings(true), Arrive(kind), Resolve(0, target), Judge(0),
                          BeginVerify(0), EndVerify(0, true), DialTarget(0)];
            Possible(cfg, Open(cfg), steps) && Dial(0, target) in Reached(cfg, Open(cfg), steps).log
  {
    var c := Open(cfg);
    var c1 := Next(cfg, c, Settings(true));
    var c2 := Next(cfg, c1, Arrive(kind));
    SlottedDial(cfg, c2, 0, target);
    var rest := DialSteps(c2, 0, target, false);
    assert rest == [Resolve(0, target), Judge(0), BeginVerify(0), EndVerify(0, true), DialTarget(0)];
    hide Possible, Reached, DialSteps;
    StepThen(cfg, c1, Arrive(kind), rest);
    StepThen(cfg, c, Settings(true), [Arrive(kind)] + rest);
    assert [Settings(true)] + ([Arrive(kind)] + rest) == [Settings(true), Arrive(kind), Resolve(0, target), Judge(0),
                                                          BeginVerify(0), EndVerify(0, true), DialTarget(0)];
  }

  // ---- How long an admission lasts ----

  const NANOS: nat := 1_000_000_000

  function PeriodSecs(period: nat): (p: nat)
    ensures p >= 1
  {
    if period / NANOS >= 1 then period / NANOS else 1
  }

  /** Nanoseconds from a whole second `now` to the end of the admission. */
  function AdmissionTtl(now: nat, period: nat, grace: nat): (ttl: nat)
  {
    (PeriodSecs(period) - now % PeriodSecs(period)) * NANOS + grace
  }

  /** When the admission ends, in nanoseconds on the wall clock. */
  function AdmissionEnd(now: nat, period: nat, grace: nat): (at: nat)
  {
    now * NANOS + AdmissionTtl(now, period, grace)
  }

  /** The end lies on a boundary of the period in whole seconds plus the grace, at least a second ahead. */
  lemma EndsOnBoundary(now: nat, period: nat, grace: nat)
    ensures AdmissionEnd(now, period, grace) == (now / PeriodSecs(period) + 1) * (PeriodSecs(period) * NANOS) + grace
    ensures NANOS + grace <= AdmissionTtl(now, period, grace) <= PeriodSecs(period) * NANOS + grace
  {
    var p := PeriodSecs(period);
    hide PeriodSecs;
    var k := now / p + 1;
    assert now == p * (now / p) + now % p;
    assert now + (p - now % p) == p * (now / p) + p;
    assert p * (now / p) + p == k * p;
    assert now * NANOS + (p - now % p) * NANOS == k * p * NANOS;
    assert k * p * NANOS == k * (p * NANOS);
  }

  ghost predicate IsBoundary(at: nat, period: nat, grace: nat) {
    exists k: nat :: at == k * period + grace
  }

  /** The end is a boundary of the period itself at every instant exactly when the period divides its whole seconds. */
  lemma EndsOnPeriodExact(period: nat, grace: nat)
    ensures (forall now: nat :: IsBoundary(AdmissionEnd(now, period, grace), period, grace)) <==>
            period > 0 && PeriodSecs(period) * NANOS % period == 0
  {
    hide AdmissionEnd;
    var whole := PeriodSecs(period) * NANOS;
    if period > 0 && whole % period == 0 {
      forall now: nat
        ensures IsBoundary(AdmissionEnd(now, period, grace), period, grace)
      {
        EndsOnBoundary(now, period, grace);
        var m := now / PeriodSecs(period) + 1;
        MultipleOfMultiple(m, whole, period);
        assert AdmissionEnd(now, period, grace) == m * (whole / period) * period + grace;
      }
    } else {
      EndsOnBoundary(0, period, grace);
      assert AdmissionEnd(0, period, grace) == whole + grace;
      if IsBoundary(AdmissionEnd(0, period, grace), period, grace) {
        var k: nat :| whole + grace == k * period + grace;
        DividesMultiple(k, period);
      }
    }
  }

  lemma MultipleOfMultiple(m: nat, x: nat, d: nat)
    requires d > 0 && x % d == 0
    ensures m * x == m * (x / d) * d
  {
    assert x == x / d * d;
  }

  lemma DividesMultiple(k: nat, d: nat)
    ensures d > 0 ==> k * d % d == 0
    ensures d == 0 ==> k * d == 0
  {
    if d > 0 {
      DivUnique(k * d, d, k);
    }
  }

  /** The end of the period that `now` lies in, the periods counted from the epoch, plus the grace. */
  function EndOfPeriod(now: nat, period: nat, grace: nat): (at: nat)
    requires period > 0
  {
    (now * NANOS / period + 1) * period + grace
  }

  /** "To the end of the current period plus the grace" holds at every instant exactly for whole seconds. */
  lemma EndOfPeriodExact(period: nat, grace: nat)
    requires period > 0
    ensures (forall now: nat :: AdmissionEnd(now, period, grace) == EndOfPeriod(now, period, grace)) <==>
            period % NANOS == 0
  {
    hide AdmissionEnd, EndOfPeriod;
    FirstEnds(period, grace);
    if period % NANOS == 0 {
      forall now: nat
        ensures AdmissionEnd(now, period, grace) == EndOfPeriod(now, period, grace)
      {
        WholeSecondsEnd(now, period, grace);
      }
    }
  }

  lemma FirstEnds(period: nat, grace: nat)
    requires period > 0
    ensures AdmissionEnd(0, period, grace) == EndOfPeriod(0, period, grace) ==> period % NANOS == 0
  {
    assert EndOfPeriod(0, period, grace) == period + grace;
  }

  lemma WholeSecondsEnd(now: nat, period: nat, grace: nat)
    requires period > 0 && period % NANOS == 0
    ensures AdmissionEnd(now, period, grace) == EndOfPeriod(now, period, grace)
  {
    hide AdmissionEnd;
    var p := PeriodSecs(period);
    assert period == p * NANOS;
    hide PeriodSecs;
    EndsOnBoundary(now, period, grace);
    ScaledQuotient(now, p, NANOS);
  }

  lemma ScaledQuotient(x: nat, p: nat, n: nat)
    requires p > 0 && n > 0
    ensures p * n > 0 && x * n / (p * n) == x / p
  {
    ScaledBounds(x, p, n, x / p, x % p);
    DivUnique(x * n, p * n, x / p);
  }

  lemma ScaledBounds(x: nat, p: nat, n: nat, q: nat, r: nat)
    requires n > 0 && r < p && x == p * q + r
    ensures p * n > 0 && p * n * q <= x * n < p * n * (q + 1)
  {
    assert x * n == p * q * n + r * n;
    assert p * q * n == p * n * q;
    assert p * n * (q + 1) == p * n * q + p * n;
    assert p * n - r * n == (p - r) * n;
  }

  /** A period of one and a half seconds: an admission at the epoch ends after one. */
  lemma FractionalPeriodEndsEarly()
    ensures AdmissionEnd(0, 1_500_000_000, 0) == 1_000_000_000
    ensures !IsBoundary(1_000_000_000, 1_500_000_000, 0)
  {
  }

  /** "Never longer than one period plus the grace" holds at every instant exactly for periods of a second or more. */
  lemma NeverLongerExact(period: nat, grace: nat)
    ensures (forall now: nat :: AdmissionTtl(now, period, grace) <= period + grace) <==> period >= NANOS
  {
    if period < NANOS {
      assert AdmissionTtl(0, period, grace) > period + grace;
    } else {
      forall now: nat
        ensures AdmissionTtl(now, period, grace) <= period + grace
      {
        EndsOnBoundary(now, period, grace);
        assert PeriodSecs(period) * NANOS <= period;
      }
    }
  }

  /** A sub-second period breaks the bound: an admission of a whole second under a half-second period. */
  lemma SubSecondPeriodOutlives()
    ensures AdmissionTtl(0, 500_000_000, 0) == 1_000_000_000
  {
  }
}
