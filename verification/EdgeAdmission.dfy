/** The edge's layered admission: per-IP live sessions and the global in-flight cap. */
module EdgeAdmission {
  import opened Addresses
  import opened Bytes

  const MAX_INFLIGHT_SESSIONS: nat := 1024
  const PER_IP_MAX_CONCURRENT: nat := 64

  // ---- Keys ----

  /** The number of addresses in an IPv6 /64. */
  const NET64: nat := 0x1_0000_0000_0000_0000

  /** IPv6 collapses to its /64: the low eight octets are cleared. */
  function RateLimitKey(ip: Ip): (key: Ip)
  {
    match ip
    case V4(_) => ip
    case V6(bits) => V6(bits / NET64 * NET64)
  }

  /** Two addresses share a key exactly when they are one IPv4 address or lie in one IPv6 /64. */
  lemma KeyShared(a: Ip, b: Ip)
    ensures RateLimitKey(a) == RateLimitKey(b) <==>
            || (a.V4? && a == b)
            || (a.V6? && b.V6? && a.bits / 0x1_0000_0000_0000_0000 == b.bits / 0x1_0000_0000_0000_0000)
  {
  }

  // ---- Per-IP counts ----

  type Counts = map<Ip, nat>

  function CountOf(counts: Counts, key: Ip): (n: nat)
  {
    if key in counts then counts[key] else 0
  }

  /** Reserves a slot, unless the key is at its maximum. */
  function Acquire(counts: Counts, key: Ip, max: nat): (r: Option<Counts>)
  {
    if CountOf(counts, key) >= max then None else Some(counts[key := CountOf(counts, key) + 1])
  }

  /** Frees a slot; a key whose count reaches zero is forgotten. */
  function Free(counts: Counts, key: Ip): (counts': Counts)
  {
    if CountOf(counts, key) <= 1 then counts - {key} else counts[key := counts[key] - 1]
  }

  predicate NoZero(counts: Counts) {
    forall k | k in counts :: counts[k] > 0
  }

  /** Freeing undoes reserving, down to the absence of an unused key. */
  lemma FreeUndoesAcquire(counts: Counts, key: Ip, max: nat)
    requires NoZero(counts) && Acquire(counts, key, max).Some?
    ensures Free(Acquire(counts, key, max).value, key) == counts
  {
    var c := Acquire(counts, key, max).value;
    if key !in counts {
      assert c - {key} == counts;
    }
  }

  class PerIpConcurrency {
    var counts: Counts
    const max: nat

    constructor (max: nat)
      ensures counts == map[] && this.max == max
    {
      counts := map[];
      this.max := max;
    }

    method TryAcquire(key: Ip) returns (guard: Option<Ip>)
      modifies this
      ensures match Acquire(old(counts), key, max)
              case None => guard.None? && counts == old(counts)
              case Some(c) => guard == Some(key) && counts == c
    {
      var count := if key in counts then counts[key] else 0;
      if count >= max {
        return None;
      }
      counts := counts[key := count + 1];
      return Some(key);
    }

    /** The guard for `key` going out of scope. */
    method DropGuard(key: Ip)
      modifies this
      ensures counts == Free(old(counts), key)
    {
      if key !in counts {
        assert counts - {key} == counts;
        return;
      }
      var count := if counts[key] > 0 then counts[key] - 1 else 0;
      counts := counts[key := count];
      if count == 0 {
        counts := counts - {key};
        assert counts == old(counts) - {key};
      }
    }
  }

  datatype Admission = Retry | Refused | Admitted(key: Ip)

  /** The admission state shared by the accept loops. */
  class EdgeAdmissionControl {
    const perIp: PerIpConcurrency
    var permits: nat

    ghost predicate Valid()
      reads this, perIp
    {
      permits <= MAX_INFLIGHT_SESSIONS && perIp.max == PER_IP_MAX_CONCURRENT && NoZero(perIp.counts)
    }

    constructor ()
      ensures Valid() && fresh(perIp) && permits == 1024 && perIp.counts == map[]
    {
      perIp := new PerIpConcurrency(PER_IP_MAX_CONCURRENT);
      permits := MAX_INFLIGHT_SESSIONS;
    }

    /**
      * One accepted connection: address validation, rate (judged by the limiter as
      * `rateOk`), per-IP concurrency, global cap, in that order. Whichever layer
      * refuses, the counts and the permits are as they were.
      */
    method Admit(ip: Ip, addressValidated: bool, rateOk: bool, ghost s: State)
      returns (r: Admission, ghost steps: seq<Step>)
      requires Valid() && Inv(s) && s.counts == perIp.counts && s.permits == permits
      modifies this, perIp
      ensures Valid()
      ensures r.Retry? <==> !addressValidated
      ensures r.Admitted? <==>
              && addressValidated && rateOk && old(permits) > 0
              && CountOf(old(perIp.counts), RateLimitKey(ip)) < 64
      ensures r.Admitted? ==>
                && r.key == RateLimitKey(ip) && permits == old(permits) - 1
                && Acquire(old(perIp.counts), r.key, PER_IP_MAX_CONCURRENT) == Some(perIp.counts)
      ensures !r.Admitted? ==> perIp.counts == old(perIp.counts) && permits == old(permits)
      ensures steps == if addressValidated then AdmitSteps(s, ip, rateOk) else []
      ensures Possible(s, steps) && Reached(s, steps).counts == perIp.counts && Reached(s, steps).permits == permits
    {
      hide Inv, Free;
      steps := [];
      if !addressValidated {
        return Retry, steps;
      }
      AdmitIsSteps(s, ip, rateOk);
      steps := AdmitSteps(s, ip, rateOk);
      hide AdmitSteps, Reached, Possible;
      var key := RateLimitKey(ip);
      if !rateOk {
        return Refused, steps;
      }
      var guard := perIp.TryAcquire(key);
      if guard.None? {
        return Refused, steps;
      }
      if permits == 0 {
        FreeUndoesAcquire(old(perIp.counts), key, PER_IP_MAX_CONCURRENT);
        perIp.DropGuard(key);
        return Refused, steps;
      }
      permits := permits - 1;
      return Admitted(key), steps;
    }

    /** An admitted session ends, for whatever reason: its permit goes back, then its slot. */
    method EndSession(key: Ip, ghost s: State, ghost id: nat)
      requires Valid() && Inv(s) && s.counts == perIp.counts && s.permits == permits
      requires id in s.sessions && s.sessions[id] == Session(key, Live)
      modifies this, perIp
      ensures Valid()
      ensures var steps := [ReturnPermit(id), Step.DropGuard(id)];
              Possible(s, steps) && Reached(s, steps).counts == perIp.counts && Reached(s, steps).permits == permits
    {
      EndIsSteps(s, id);
      hide Reached, Possible;
      permits := permits + 1;
      perIp.DropGuard(key);
    }
  }

  // ---- Every interleaving of admissions and session ends ----

  /** The permit is taken after the per-IP slot and given back before it; without a permit the slot goes back too. */
  datatype Phase = Counted | Live | Closing

  datatype Session = Session(key: Ip, phase: Phase)

  datatype State = State(counts: Counts, permits: nat, next: nat, sessions: map<nat, Session>)

  const START: State := State(map[], MAX_INFLIGHT_SESSIONS, 0, map[])

  datatype Step =
    | Attempt(ip: Ip, rateOk: bool)
    | TakePermit(id: nat)
    | MissPermit(id: nat)
    | ReturnPermit(id: nat)
    | DropGuard(id: nat)

  predicate Enabled(s: State, step: Step) {
    match step
    case Attempt(_, _) => true
    case TakePermit(id) => id in s.sessions && s.sessions[id].phase == Counted && s.permits > 0
    case MissPermit(id) => id in s.sessions && s.sessions[id].phase == Counted && s.permits == 0
    case ReturnPermit(id) => id in s.sessions && s.sessions[id].phase == Live
    case DropGuard(id) => id in s.sessions && s.sessions[id].phase == Closing
  }

  function Next(s: State, step: Step): (s': State)
    requires Enabled(s, step)
  {
    match step
    case Attempt(ip, rateOk) =>
      var key := RateLimitKey(ip);
      var taken := Acquire(s.counts, key, PER_IP_MAX_CONCURRENT);
      if !rateOk || taken.None? then s
      else State(taken.value, s.permits, s.next + 1, s.sessions[s.next := Session(key, Counted)])
    case TakePermit(id) =>
      s.(permits := s.permits - 1, sessions := s.sessions[id := s.sessions[id].(phase := Live)])
    case MissPermit(id) => s.(sessions := s.sessions[id := s.sessions[id].(phase := Closing)])
    case ReturnPermit(id) =>
      s.(permits := s.permits + 1, sessions := s.sessions[id := s.sessions[id].(phase := Closing)])
    case DropGuard(id) =>
      s.(counts := Free(s.counts, s.sessions[id].key), sessions := s.sessions - {id})
  }

  ghost predicate IsRun(steps: seq<Step>, s: State)
    decreases |steps|
  {
    if steps == [] then s == START
    else
      var last := steps[|steps| - 1];
      exists b :: IsRun(steps[..|steps| - 1], b) && Enabled(b, last) && s == Next(b, last)
  }

  /** The sessions that hold a guard for `key`. */
  function Guards(sessions: map<nat, Session>, key: Ip): (ids: set<nat>)
  {
    set id | id in sessions && sessions[id].key == key
  }

  /** The sessions that hold a global permit. */
  function LiveIds(sessions: map<nat, Session>): (ids: set<nat>)
  {
    set id | id in sessions && sessions[id].phase == Live
  }

  /** The sum of the counts of `keys`. */
  ghost function Sum(counts: Counts, keys: set<Ip>): (n: nat)
    requires keys <= counts.Keys
  {
    if keys == {} then 0
    else
      var k :| k in keys;
      counts[k] + Sum(counts, keys - {k})
  }

  ghost predicate Inv(s: State) {
    && (forall k :: CountOf(s.counts, k) == |Guards(s.sessions, k)| <= PER_IP_MAX_CONCURRENT)
    && NoZero(s.counts)
    && Sum(s.counts, s.counts.Keys) == |s.sessions|
    && s.permits + |LiveIds(s.sessions)| == MAX_INFLIGHT_SESSIONS
    && (forall id | id in s.sessions :: id < s.next)
  }

  // ---- Sums ----

  lemma {:induction false} SumExtract(counts: Counts, keys: set<Ip>, k: Ip)
    requires keys <= counts.Keys && k in keys
    ensures Sum(counts, keys) == counts[k] + Sum(counts, keys - {k})
    decreases keys
  {
    var j :| j in keys && Sum(counts, keys) == counts[j] + Sum(counts, keys - {j});
    if j != k {
      SumExtract(counts, keys - {j}, k);
      SumExtract(counts, keys - {k}, j);
      assert keys - {j} - {k} == keys - {k} - {j};
    }
  }

  lemma {:induction false} SumSame(a: Counts, b: Counts, keys: set<Ip>)
    requires keys <= a.Keys && keys <= b.Keys && forall k | k in keys :: a[k] == b[k]
    ensures Sum(a, keys) == Sum(b, keys)
    decreases keys
  {
    if keys != {} {
      var k :| k in keys;
      SumExtract(a, keys, k);
      SumExtract(b, keys, k);
      SumSame(a, b, keys - {k});
    }
  }

  /** Changing one count changes the sum by as much. */
  lemma SumUpdate(counts: Counts, k: Ip, n: nat)
    ensures Sum(counts[k := n], counts[k := n].Keys) == Sum(counts, counts.Keys) - CountOf(counts, k) + n
  {
    var c := counts[k := n];
    SumExtract(c, c.Keys, k);
    var rest := counts.Keys - {k};
    assert c.Keys - {k} == rest;
    SumSame(c, counts, rest);
    if k in counts {
      SumExtract(counts, counts.Keys, k);
    } else {
      assert counts.Keys == rest;
    }
  }

  lemma SumRemove(counts: Counts, k: Ip)
    ensures Sum(counts - {k}, (counts - {k}).Keys) == Sum(counts, counts.Keys) - CountOf(counts, k)
  {
    var c := counts - {k};
    var rest := counts.Keys - {k};
    assert c.Keys == rest;
    SumSame(c, counts, rest);
    if k in counts {
      SumExtract(counts, counts.Keys, k);
    } else {
      assert counts.Keys == rest;
    }
  }

  // ---- Steps keep the invariant ----

  lemma SessionCount(sessions: map<nat, Session>, id: nat, x: Session)
    ensures |sessions[id := x]| == |sessions| + (if id in sessions then 0 else 1)
    ensures |sessions - {id}| == |sessions| - (if id in sessions then 1 else 0)
  {
    var more, fewer := sessions[id := x], sessions - {id};
    assert more.Keys == sessions.Keys + {id} && fewer.Keys == sessions.Keys - {id};
    assert |more| == |more.Keys| && |fewer| == |fewer.Keys| && |sessions| == |sessions.Keys|;
    CountWithout(sessions.Keys, id);
    CountWithout(more.Keys, id);
    assert more.Keys - {id} == sessions.Keys - {id};
  }

  lemma GuardsAdd(sessions: map<nat, Session>, id: nat, x: Session, k: Ip)
    requires id !in sessions
    ensures |Guards(sessions[id := x], k)| == |Guards(sessions, k)| + (if k == x.key then 1 else 0)
  {
    var g := Guards(sessions[id := x], k);
    CountWithout(g, id);
    assert g - {id} == Guards(sessions, k);
  }

  lemma GuardsRemove(sessions: map<nat, Session>, id: nat, k: Ip)
    requires id in sessions
    ensures |Guards(sessions - {id}, k)| == |Guards(sessions, k)| - (if k == sessions[id].key then 1 else 0)
  {
    var g := Guards(sessions, k);
    CountWithout(g, id);
    assert g - {id} == Guards(sessions - {id}, k);
  }

  lemma GuardsKept(sessions: map<nat, Session>, id: nat, x: Session, k: Ip)
    requires id in sessions && x.key == sessions[id].key
    ensures Guards(sessions[id := x], k) == Guards(sessions, k)
  {
  }

  lemma LiveUpdate(sessions: map<nat, Session>, id: nat, x: Session)
    ensures |LiveIds(sessions[id := x])| ==
            |LiveIds(sessions)| - (if id in sessions && sessions[id].phase == Live then 1 else 0)
            + (if x.phase == Live then 1 else 0)
  {
    var l, m := LiveIds(sessions), LiveIds(sessions[id := x]);
    CountWithout(l, id);
    CountWithout(m, id);
    assert l - {id} == m - {id};
  }

  lemma LiveRemove(sessions: map<nat, Session>, id: nat)
    ensures |LiveIds(sessions - {id})| ==
            |LiveIds(sessions)| - (if id in sessions && sessions[id].phase == Live then 1 else 0)
  {
    CountWithout(LiveIds(sessions), id);
    assert LiveIds(sessions - {id}) == LiveIds(sessions) - {id};
  }

  lemma AttemptInv(s: State, ip: Ip)
    requires Inv(s) && Enabled(s, Attempt(ip, true))
    ensures Inv(Next(s, Attempt(ip, true)))
  {
    hide Guards, LiveIds, Sum, RateLimitKey;
    var key := RateLimitKey(ip);
    if Acquire(s.counts, key, PER_IP_MAX_CONCURRENT).Some? {
      var x := Session(key, Counted);
      SumUpdate(s.counts, key, CountOf(s.counts, key) + 1);
      SessionCount(s.sessions, s.next, x);
      LiveUpdate(s.sessions, s.next, x);
      var s' := Next(s, Attempt(ip, true));
      forall k
        ensures CountOf(s'.counts, k) == |Guards(s'.sessions, k)| <= PER_IP_MAX_CONCURRENT
      {
        assert CountOf(s.counts, k) == |Guards(s.sessions, k)|;
        GuardsAdd(s.sessions, s.next, x, k);
      }
    }
  }

  /** A session that changes phase, with the permit its phases stand for. */
  lemma PhaseInv(s: State, id: nat, phase: Phase, permits: nat)
    requires Inv(s) && id in s.sessions
    requires permits + (if phase == Live then 1 else 0) == s.permits + (if s.sessions[id].phase == Live then 1 else 0)
    ensures Inv(s.(permits := permits, sessions := s.sessions[id := s.sessions[id].(phase := phase)]))
  {
    hide Guards, LiveIds, Sum;
    var x := s.sessions[id].(phase := phase);
    SessionCount(s.sessions, id, x);
    LiveUpdate(s.sessions, id, x);
    forall k
      ensures Guards(s.sessions[id := x], k) == Guards(s.sessions, k)
    {
      GuardsKept(s.sessions, id, x, k);
    }
  }

  lemma DropInv(s: State, id: nat)
    requires Inv(s) && Enabled(s, DropGuard(id))
    ensures Inv(Next(s, DropGuard(id)))
  {
    hide Guards, LiveIds, Sum;
    var x := s.sessions[id];
    SessionCount(s.sessions, id, x);
    LiveRemove(s.sessions, id);
    GuardsRemove(s.sessions, id, x.key);
    assert CountOf(s.counts, x.key) == |Guards(s.sessions, x.key)|;
    if CountOf(s.counts, x.key) <= 1 {
      SumRemove(s.counts, x.key);
    } else {
      SumUpdate(s.counts, x.key, s.counts[x.key] - 1);
    }
    forall k
      ensures |Guards(s.sessions - {id}, k)| == |Guards(s.sessions, k)| - (if k == x.key then 1 else 0)
    {
      GuardsRemove(s.sessions, id, k);
    }
  }

  lemma StepInv(s: State, step: Step)
    requires Inv(s) && Enabled(s, step)
    ensures Inv(Next(s, step))
  {
    hide Inv;
    match step
    case Attempt(ip, rateOk) => if rateOk { AttemptInv(s, ip); }
    case TakePermit(id) => PhaseInv(s, id, Live, s.permits - 1);
    case MissPermit(id) =>
      PhaseInv(s, id, Closing, s.permits);
      assert s.(permits := s.permits) == s;
    case ReturnPermit(id) => PhaseInv(s, id, Closing, s.permits + 1);
    case DropGuard(id) => DropInv(s, id);
  }

  lemma StartInv()
    ensures Inv(START)
  {
    assert forall k :: Guards(START.sessions, k) == {};
    assert LiveIds(START.sessions) == {};
  }

  /**
    * In every run: each key's count is its live guards, never above the per-IP cap,
    * and the key is absent exactly when it has none; the counts sum to the sessions
    * holding a guard; permits in use are the live sessions, at most 1024. When no
    * session is on its way in or out, the counts sum to the permits in use.
    */
  lemma {:induction false} RunIsAccounted(steps: seq<Step>, s: State)
    requires IsRun(steps, s)
    ensures Inv(s)
    ensures forall k :: CountOf(s.counts, k) == |Guards(s.sessions, k)| <= 64
    ensures forall k :: k in s.counts <==> Guards(s.sessions, k) != {}
    ensures Sum(s.counts, s.counts.Keys) == |s.sessions|
    ensures 1024 - s.permits == |LiveIds(s.sessions)| <= 1024
    ensures (forall id | id in s.sessions :: s.sessions[id].phase == Live) ==>
              Sum(s.counts, s.counts.Keys) == 1024 - s.permits
    decreases |steps|
  {
    if steps == [] {
      StartInv();
    } else {
      var last := steps[|steps| - 1];
      var b :| IsRun(steps[..|steps| - 1], b) && Enabled(b, last) && s == Next(b, last);
      RunIsAccounted(steps[..|steps| - 1], b);
      StepInv(b, last);
    }
    AccountsOf(s);
  }

  lemma AccountsOf(s: State)
    requires Inv(s)
    ensures forall k :: k in s.counts <==> Guards(s.sessions, k) != {}
    ensures (forall id | id in s.sessions :: s.sessions[id].phase == Live) ==> |LiveIds(s.sessions)| == |s.sessions|
  {
    forall k
      ensures k in s.counts <==> Guards(s.sessions, k) != {}
    {
      assert CountOf(s.counts, k) == |Guards(s.sessions, k)|;
    }
    if forall id | id in s.sessions :: s.sessions[id].phase == Live {
      assert LiveIds(s.sessions) == s.sessions.Keys;
      assert |s.sessions| == |s.sessions.Keys|;
    }
  }

  /** An attempt that gets its per-IP slot and then misses the permit leaves the counts as they were. */
  lemma MissedPermitLeavesNoTrace(s: State, ip: Ip)
    requires Inv(s) && s.permits == 0
    requires Acquire(s.counts, RateLimitKey(ip), PER_IP_MAX_CONCURRENT).Some?
    ensures var s1 := Next(s, Attempt(ip, true));
            && Enabled(s1, MissPermit(s.next))
            && Enabled(Next(s1, MissPermit(s.next)), DropGuard(s.next))
            && Next(Next(s1, MissPermit(s.next)), DropGuard(s.next)) == s.(next := s.next + 1)
  {
    FreeUndoesAcquire(s.counts, RateLimitKey(ip), PER_IP_MAX_CONCURRENT);
    var s1 := Next(s, Attempt(ip, true));
    var s2 := Next(s1, MissPermit(s.next));
    assert s2.sessions - {s.next} == s.sessions;
  }

  // ---- One admission is a few steps ----

  predicate Possible(s: State, steps: seq<Step>)
    decreases |steps|
  {
    steps == [] || (Enabled(s, steps[0]) && Possible(Next(s, steps[0]), steps[1..]))
  }

  function Reached(s: State, steps: seq<Step>): (s': State)
    requires Possible(s, steps)
    decreases |steps|
  {
    if steps == [] then s else Reached(Next(s, steps[0]), steps[1..])
  }

  /** Attempt, then the permit; or, without a permit, the slot goes back. */
  function AdmitSteps(s: State, ip: Ip, rateOk: bool): (steps: seq<Step>)
  {
    [Attempt(ip, rateOk)] +
    if !rateOk || Acquire(s.counts, RateLimitKey(ip), PER_IP_MAX_CONCURRENT).None? then []
    else if s.permits > 0 then [TakePermit(s.next)]
    else [MissPermit(s.next), Step.DropGuard(s.next)]
  }

  lemma StepThen(s: State, step: Step, rest: seq<Step>)
    requires Enabled(s, step) && Possible(Next(s, step), rest)
    ensures Possible(s, [step] + rest) && Reached(s, [step] + rest) == Reached(Next(s, step), rest)
  {
    hide Next;
    assert ([step] + rest)[1..] == rest;
  }

  lemma AdmitIsSteps(s: State, ip: Ip, rateOk: bool)
    requires Inv(s)
    ensures Possible(s, AdmitSteps(s, ip, rateOk))
    ensures var s' := Reached(s, AdmitSteps(s, ip, rateOk));
            var taken := Acquire(s.counts, RateLimitKey(ip), PER_IP_MAX_CONCURRENT);
            if rateOk && taken.Some? && s.permits > 0 then s'.counts == taken.value && s'.permits == s.permits - 1
            else s'.counts == s.counts && s'.permits == s.permits
  {
    hide Free;
    var first := Attempt(ip, rateOk);
    var s1, taken := Next(s, first), Acquire(s.counts, RateLimitKey(ip), PER_IP_MAX_CONCURRENT);
    if !rateOk || taken.None? {
      StepThen(s, first, []);
    } else if s.permits > 0 {
      StepThen(s1, TakePermit(s.next), []);
      StepThen(s, first, [TakePermit(s.next)]);
    } else {
      MissedPermitLeavesNoTrace(s, ip);
      hide Inv;
      var miss, drop := MissPermit(s.next), Step.DropGuard(s.next);
      StepThen(Next(s1, miss), drop, []);
      StepThen(s1, miss, [drop]);
      StepThen(s, first, [miss, drop]);
      assert [miss] + [drop] == [miss, drop];
    }
  }

  lemma EndIsSteps(s: State, id: nat)
    requires Inv(s) && id in s.sessions && s.sessions[id].phase == Live
    ensures var steps := [ReturnPermit(id), Step.DropGuard(id)];
            && Possible(s, steps) && Reached(s, steps).permits == s.permits + 1 <= MAX_INFLIGHT_SESSIONS
            && Reached(s, steps).counts == Free(s.counts, s.sessions[id].key)
            && NoZero(Reached(s, steps).counts)
  {
    var first, drop := ReturnPermit(id), Step.DropGuard(id);
    var s1 := Next(s, first);
    StepInv(s, first);
    StepInv(s1, drop);
    StepThen(s1, drop, []);
    StepThen(s, first, [drop]);
    assert [first] + [drop] == [first, drop];
  }
}
