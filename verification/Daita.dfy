/** The DAITA timer driver around an arbitrary traffic-shaping framework. */
module Daita {
  import opened Bytes

  /** Saturation point of the counters. */
  const U64_MAX: nat := 0xffff_ffff_ffff_ffff

  /** One hour, in nanoseconds like every instant and duration here. */
  const PLACEHOLDER_SLEEP: nat := 3_600_000_000_000

  type MachineId = nat

  datatype Event =
    | NormalSent | NormalRecv | PaddingSent(machine: MachineId) | PaddingRecv
    | TunnelSent | TunnelRecv | BlockingBegin(machine: MachineId) | BlockingEnd

  datatype Timer = ActionTimer | InternalTimer | Both

  datatype Action =
    | SendPadding(machine: MachineId, timeout: nat, bypass: bool, replace: bool)
    | BlockOutgoing(machine: MachineId, timeout: nat, duration: nat, bypass: bool, replace: bool)
    | Cancel(machine: MachineId, timer: Timer)
    | UpdateTimer(machine: MachineId, duration: nat, replace: bool)

  datatype Kind = Padding | Block(duration: nat)

  /** One machine's timers. */
  datatype Slot = Slot(action: Option<nat>, kind: Option<Kind>, blockEnd: Option<nat>, internal: Option<nat>)

  const EMPTY: Slot := Slot(None, None, None, None)

  type Timers = map<MachineId, Slot>

  datatype Metrics = Metrics(paddingFired: nat, blockingBegins: nat, blockingEnds: nat)

  // ---- Applying the framework's actions ----

  function SlotOf(timers: Timers, id: MachineId): (s: Slot)
  {
    if id in timers then timers[id] else EMPTY
  }

  function Apply(timers: Timers, a: Action, now: nat): (timers': Timers)
  {
    var s := SlotOf(timers, a.machine);
    timers[a.machine :=
      match a
      case SendPadding(_, timeout, _, _) => s.(action := Some(now + timeout), kind := Some(Padding))
      case BlockOutgoing(_, timeout, duration, _, _) =>
        s.(action := Some(now + timeout), kind := Some(Block(duration)))
      case Cancel(_, ActionTimer) => s.(action := None, kind := None)
      case Cancel(_, InternalTimer) => s.(internal := None)
      case Cancel(_, Both) => s.(action := None, kind := None, internal := None)
      case UpdateTimer(_, duration, replace) =>
        var at := now + duration;
        s.(internal := Some(if s.internal.Some? && !replace && s.internal.value > at then s.internal.value else at))]
  }

  function ApplyAll(timers: Timers, actions: seq<Action>, now: nat): (timers': Timers)
    decreases |actions|
  {
    if actions == [] then timers else ApplyAll(Apply(timers, actions[0], now), actions[1..], now)
  }

  // ---- Expiry ----

  predicate Fires(s: Slot, now: nat) {
    s.action.Some? && s.action.value <= now
  }

  predicate Begins(s: Slot, now: nat) {
    Fires(s, now) && s.kind.Some? && s.kind.value.Block?
  }

  /** A block begins while the end of an earlier one is still due, and takes its place. */
  predicate Replaces(s: Slot, now: nat) {
    Begins(s, now) && s.blockEnd.Some?
  }

  /** A slot after its action timer was looked at, before its block end is. */
  function Fired(s: Slot, now: nat): (s': Slot)
  {
    if !Fires(s, now) then s
    else if Begins(s, now) then s.(action := None, kind := None, blockEnd := Some(now + s.kind.value.duration))
    else s.(action := None, kind := None)
  }

  predicate Ends(s: Slot, now: nat) {
    var s' := Fired(s, now);
    s'.blockEnd.Some? && s'.blockEnd.value <= now
  }

  function Drained(s: Slot, now: nat): (s': Slot)
  {
    if Ends(s, now) then Fired(s, now).(blockEnd := None) else Fired(s, now)
  }

  function DrainAll(timers: Timers, now: nat): (timers': Timers)
  {
    map id | id in timers :: Drained(timers[id], now)
  }

  /** The machines whose action timer is due. */
  function Expired(timers: Timers, now: nat): (ids: set<MachineId>)
  {
    set id | id in timers && Fires(timers[id], now)
  }

  /** The machines waiting for their blocking interval to end. */
  function Pending(timers: Timers): (ids: set<MachineId>)
  {
    set id | id in timers && timers[id].blockEnd.Some?
  }

  /** An action deadline is armed exactly when its kind is known. */
  predicate Consistent(timers: Timers) {
    forall id | id in timers :: timers[id].action.Some? <==> timers[id].kind.Some?
  }

  predicate IsDeadline(s: Slot, at: nat) {
    s.action == Some(at) || s.blockEnd == Some(at)
  }

  function Sat(n: nat): (m: nat)
    ensures m <= 0xffff_ffff_ffff_ffff && (n <= 0xffff_ffff_ffff_ffff ==> m == n)
    ensures n > 0xffff_ffff_ffff_ffff ==> m == 0xffff_ffff_ffff_ffff
  {
    if n <= U64_MAX then n else U64_MAX
  }

  function SatAdd(n: nat): (m: nat)
  {
    if n < U64_MAX then n + 1 else U64_MAX
  }

  predicate Distinct(ids: seq<MachineId>) {
    forall i, j | 0 <= i < j < |ids| :: ids[i] != ids[j]
  }

  // ---- Properties of the pieces ----

  lemma {:induction false} ApplyAllConcat(timers: Timers, a: seq<Action>, b: seq<Action>, now: nat)
    ensures ApplyAll(timers, a + b, now) == ApplyAll(ApplyAll(timers, a, now), b, now)
    decreases |a|
  {
    hide Apply;
    if a == [] {
      assert a + b == b;
    } else {
      assert (a + b)[1..] == a[1..] + b;
      ApplyAllConcat(Apply(timers, a[0], now), a[1..], b, now);
    }
  }

  /** Actions arm and disarm, but never touch a block end, and keep deadline and kind together. */
  lemma {:induction false} ApplyAllKeeps(timers: Timers, actions: seq<Action>, now: nat)
    requires Consistent(timers)
    ensures Consistent(ApplyAll(timers, actions, now))
    ensures forall id :: SlotOf(ApplyAll(timers, actions, now), id).blockEnd == SlotOf(timers, id).blockEnd
    decreases |actions|
  {
    if actions != [] {
      ApplyAllKeeps(Apply(timers, actions[0], now), actions[1..], now);
    }
  }

  predicate Arms(a: Action, id: MachineId, at: nat, now: nat) {
    (a.SendPadding? || a.BlockOutgoing?) && a.machine == id && now + a.timeout == at
  }

  /** A deadline found after the actions was there before them or was armed by one of them. */
  lemma {:induction false} ArmedBy(timers: Timers, actions: seq<Action>, now: nat, id: MachineId, at: nat)
    requires SlotOf(ApplyAll(timers, actions, now), id).action == Some(at)
    ensures SlotOf(timers, id).action == Some(at) || exists a | a in actions :: Arms(a, id, at, now)
    decreases |actions|
  {
    if actions != [] {
      var a := actions[0];
      ArmedBy(Apply(timers, a, now), actions[1..], now, id, at);
      if SlotOf(Apply(timers, a, now), id).action == Some(at) && SlotOf(timers, id).action != Some(at) {
        assert Arms(a, id, at, now);
      }
    }
  }

  /** Nothing due survives the first phase of a drain. */
  lemma DrainedIsQuiet(timers: Timers, now: nat)
    requires Consistent(timers)
    ensures Consistent(DrainAll(timers, now))
    ensures forall id, at: nat | id in timers && IsDeadline(DrainAll(timers, now)[id], at) :: at > now
  {
  }

  lemma SamePending(a: Timers, b: Timers)
    requires forall id :: SlotOf(a, id).blockEnd == SlotOf(b, id).blockEnd
    ensures Pending(a) == Pending(b)
  {
    assert forall id :: id in Pending(a) <==> SlotOf(a, id).blockEnd.Some?;
    assert forall id :: id in Pending(b) <==> SlotOf(b, id).blockEnd.Some?;
  }

  lemma PendingUpdate(timers: Timers, id: MachineId, s: Slot)
    requires id in timers
    ensures |Pending(timers[id := s])| ==
            |Pending(timers)| - (if timers[id].blockEnd.Some? then 1 else 0) + (if s.blockEnd.Some? then 1 else 0)
  {
    var p, q := Pending(timers), Pending(timers[id := s]);
    assert forall x | x != id :: x in p <==> x in q;
    assert p - {id} == q - {id};
    CountWithout(p, id);
    CountWithout(q, id);
  }

  // ---- The driver ----

  /** What one call hands to the framework. */
  datatype Batch = Batch(events: seq<Event>, now: nat)

  /** The wrapped framework: what it answers is an arbitrary function of everything it was handed so far. */
  class Framework {
    const enabled: bool
    const answers: seq<Batch> -> seq<Action>
    var log: seq<Batch>

    constructor (enabled: bool, answers: seq<Batch> -> seq<Action>)
      ensures this.enabled == enabled && this.answers == answers && log == []
    {
      this.enabled := enabled;
      this.answers := answers;
      log := [];
    }

    /** A disabled framework never acts. */
    function Answer(log: seq<Batch>): (actions: seq<Action>)
    {
      if enabled then answers(log) else []
    }

    /** The answers to a number of batches, one call each. */
    function AnswersTo(log: seq<Batch>, batches: seq<Batch>): (actions: seq<Action>)
      decreases |batches|
    {
      if batches == [] then []
      else Answer(log + [batches[0]]) + AnswersTo(log + [batches[0]], batches[1..])
    }

    method Trigger(events: seq<Event>, now: nat) returns (actions: seq<Action>)
      modifies this
      ensures log == old(log) + [Batch(events, now)]
      ensures actions == if enabled then answers(log) else []
    {
      log := log + [Batch(events, now)];
      if !enabled {
        return [];
      }
      actions := answers(log);
    }
  }

  /** The feedback of a drain: one begin per machine that starts blocking, then one end for all that stop. */
  function BlockBatches(begun: seq<MachineId>, ended: bool, now: nat): (batches: seq<Batch>)
  {
    BeginBatches(begun, now) + if ended then [Batch([BlockingEnd], now)] else []
  }

  function BeginBatches(begun: seq<MachineId>, now: nat): (batches: seq<Batch>)
    ensures |batches| == |begun|
  {
    if begun == [] then []
    else BeginBatches(begun[..|begun| - 1], now) + [Batch([BlockingBegin(begun[|begun| - 1])], now)]
  }

  /** Begins in order, then the end if there is one, a batch each. */
  lemma {:induction false} BatchesExact(begun: seq<MachineId>, ended: bool, now: nat)
    ensures var batches := BlockBatches(begun, ended, now);
            && |batches| == |begun| + (if ended then 1 else 0)
            && (forall i | 0 <= i < |begun| :: batches[i] == Batch([BlockingBegin(begun[i])], now))
            && (ended ==> batches[|begun|] == Batch([BlockingEnd], now))
    decreases |begun|
  {
    if begun != [] {
      var n := |begun| - 1;
      BatchesExact(begun[..n], ended, now);
      forall i | 0 <= i < n
        ensures BeginBatches(begun, now)[i] == Batch([BlockingBegin(begun[i])], now)
      {
        assert BlockBatches(begun[..n], ended, now)[i] == BeginBatches(begun[..n], now)[i];
        assert begun[..n][i] == begun[i];
      }
    }
  }

  lemma {:induction false} AnswersToSnoc(framework: Framework, log: seq<Batch>, batches: seq<Batch>, last: Batch)
    ensures framework.AnswersTo(log, batches + [last]) ==
            framework.AnswersTo(log, batches) + framework.Answer(log + batches + [last])
    decreases |batches|
  {
    if batches == [] {
      assert framework.AnswersTo(log + [last], []) == [];
      assert log + batches + [last] == log + [last];
      assert ([last])[1..] == [];
    } else {
      assert (batches + [last])[1..] == batches[1..] + [last];
      assert log + [batches[0]] + batches[1..] + [last] == log + batches + [last];
      AnswersToSnoc(framework, log + [batches[0]], batches[1..], last);
    }
  }

  class DaitaState {
    const framework: Framework
    var timers: Timers
    var metrics: Metrics
    /** Exact counts behind the saturating metrics, and the ids handed to the pump so far. */
    ghost var padding: nat
    ghost var begins: nat
    ghost var ends: nat
    ghost var returned: nat
    /** The begins that took the place of a block end still due. */
    ghost var replaced: nat

    /** Holds between any two calls, whatever the framework answered. */
    ghost predicate Valid()
      reads this
    {
      && Consistent(timers)
      && metrics == Metrics(Sat(padding), Sat(begins), Sat(ends))
      && padding + begins == returned
      && ends + |Pending(timers)| + replaced == begins
    }

    constructor (framework: Framework)
      ensures Valid() && this.framework == framework && timers == map[] && returned == 0
    {
      this.framework := framework;
      timers := map[];
      metrics := Metrics(0, 0, 0);
      padding, begins, ends, returned, replaced := 0, 0, 0, 0, 0;
    }

    /** Feeds events to the framework and applies what it answers, in order. */
    method FireEvents(events: seq<Event>, now: nat) returns (actions: seq<Action>)
      requires Valid()
      modifies this`timers, framework
      ensures Valid()
      ensures timers == ApplyAll(old(timers), actions, now)
      ensures framework.log == old(framework.log) + [Batch(events, now)] && actions == framework.Answer(framework.log)
    {
      actions := framework.Trigger(events, now);
      for i := 0 to |actions|
        invariant timers == ApplyAll(old(timers), actions[..i], now)
        modifies this`timers
      {
        ApplyAllConcat(old(timers), actions[..i], [actions[i]], now);
        assert actions[..i + 1] == actions[..i] + [actions[i]];
        ApplyAction(actions[i], now);
      }
      assert actions[..|actions|] == actions;
      ApplyAllKeeps(old(timers), actions, now);
      SamePending(old(timers), timers);
    }

    method ApplyAction(a: Action, now: nat)
      modifies this`timers
      ensures timers == Apply(old(timers), a, now)
    {
      var entry := SlotOf(timers, a.machine);
      match a {
        case SendPadding(_, timeout, _, _) =>
          entry := entry.(action := Some(now + timeout), kind := Some(Padding));
        case BlockOutgoing(_, timeout, duration, _, _) =>
          entry := entry.(action := Some(now + timeout), kind := Some(Block(duration)));
        case Cancel(_, timer) =>
          if timer != InternalTimer {
            entry := entry.(action := None, kind := None);
          }
          if timer != ActionTimer {
            entry := entry.(internal := None);
          }
        case UpdateTimer(_, duration, replace) =>
          var at := now + duration;
          if entry.internal.Some? && !replace && entry.internal.value > at {
            at := entry.internal.value;
          }
          entry := entry.(internal := Some(at));
      }
      timers := timers[a.machine := entry];
    }

    /** One round of the drain: the slot of one machine. */
    method DrainSlot(id: MachineId, now: nat) returns (fired: bool, begun: bool, ended: bool)
      requires Valid() && id in timers
      modifies this`timers, this`metrics, this`padding, this`begins, this`ends, this`returned, this`replaced
      ensures Valid()
      ensures timers == old(timers)[id := Drained(old(timers)[id], now)]
      ensures fired == Fires(old(timers)[id], now) && begun == Begins(old(timers)[id], now)
      ensures ended == Ends(old(timers)[id], now)
      ensures returned == old(returned) + if fired then 1 else 0
      ensures begins == old(begins) + if begun then 1 else 0
      ensures ends == old(ends) + if ended then 1 else 0
      ensures replaced == old(replaced) + if Replaces(old(timers)[id], now) then 1 else 0
    {
      var t := timers[id];
      fired, begun, ended := false, false, false;
      PendingUpdate(timers, id, Drained(t, now));
      if t.action.Some? && t.action.value <= now {
        var kind := t.kind;
        t := t.(action := None, kind := None);
        fired := true;
        returned := returned + 1;
        if kind.Some? && kind.value.Block? {
          t := t.(blockEnd := Some(now + kind.value.duration));
          begun := true;
          metrics := metrics.(blockingBegins := SatAdd(metrics.blockingBegins));
          begins := begins + 1;
          replaced := replaced + if timers[id].blockEnd.Some? then 1 else 0;
        } else {
          metrics := metrics.(paddingFired := SatAdd(metrics.paddingFired));
          padding := padding + 1;
        }
      }
      if t.blockEnd.Some? && t.blockEnd.value <= now {
        t := t.(blockEnd := None);
        ended := true;
        metrics := metrics.(blockingEnds := SatAdd(metrics.blockingEnds));
        ends := ends + 1;
      }
      timers := timers[id := t];
    }

    /** First phase: every slot once, in whatever order the map yields them. */
    method DrainSlots(now: nat)
      returns (fired: seq<MachineId>, begun: seq<MachineId>, ended: seq<MachineId>, ghost over: seq<MachineId>)
      requires Valid()
      modifies this`timers, this`metrics, this`padding, this`begins, this`ends, this`returned, this`replaced
      ensures Valid() && timers == DrainAll(old(timers), now)
      ensures Distinct(fired) && (set id | id in fired) == Expired(old(timers), now)
      ensures Distinct(begun) && forall id :: id in begun <==> id in old(timers) && Begins(old(timers)[id], now)
      ensures forall id :: id in ended <==> id in old(timers) && Ends(old(timers)[id], now)
      ensures Distinct(over) && forall id :: id in over <==> id in old(timers) && Replaces(old(timers)[id], now)
      ensures replaced == old(replaced) + |over|
      ensures returned == old(returned) + |fired| && begins == old(begins) + |begun| && ends == old(ends) + |ended|
    {
      hide Drained, Fires, Begins, Ends, Replaces, Pending, Consistent, Sat;
      fired, begun, ended, over := [], [], [], [];
      ghost var before := timers;
      var todo := timers.Keys;
      while todo != {}
        invariant Valid() && todo <= before.Keys == timers.Keys
        invariant forall id | id in before ::
            timers[id] == if id in todo then before[id] else Drained(before[id], now)
        invariant Distinct(fired) && Distinct(begun) && Distinct(over) && replaced == old(replaced) + |over|
        invariant forall id :: id in over <==> id in before && id !in todo && Replaces(before[id], now)
        invariant forall id :: id in ended <==> id in before && id !in todo && Ends(before[id], now)
        invariant forall id :: id in fired <==> id in before && id !in todo && Fires(before[id], now)
        invariant forall id :: id in begun <==> id in before && id !in todo && Begins(before[id], now)
        invariant returned == old(returned) + |fired| && begins == old(begins) + |begun| && ends == old(ends) + |ended|
        decreases todo
      {
        var id :| id in todo;
        todo := todo - {id};
        var f, b, e := DrainSlot(id, now);
        if f {
          fired := fired + [id];
        }
        if b {
          begun := begun + [id];
        }
        if e {
          ended := ended + [id];
        }
        if Replaces(before[id], now) {
          over := over + [id];
        }
      }
    }

    /** Second phase: the blocking that began and ended is fed back to the framework. */
    method FeedBack(begun: seq<MachineId>, ended: bool, now: nat) returns (ghost reentrant: seq<Action>)
      requires Valid()
      modifies this`timers, framework
      ensures Valid() && timers == ApplyAll(old(timers), reentrant, now)
      ensures framework.log == old(framework.log) + BlockBatches(begun, ended, now)
      ensures reentrant == framework.AnswersTo(old(framework.log), BlockBatches(begun, ended, now))
    {
      reentrant := [];
      for i := 0 to |begun|
        invariant Valid() && timers == ApplyAll(old(timers), reentrant, now)
        invariant framework.log == old(framework.log) + BeginBatches(begun[..i], now)
        invariant reentrant == framework.AnswersTo(old(framework.log), BeginBatches(begun[..i], now))
      {
        assert begun[..i + 1][..i] == begun[..i];
        var begin := BlockingBegin(begun[i]);
        AnswersToSnoc(framework, old(framework.log), BeginBatches(begun[..i], now), Batch([begin], now));
        var actions := FireEvents([begin], now);
        ApplyAllConcat(old(timers), reentrant, actions, now);
        reentrant := reentrant + actions;
      }
      assert begun[..|begun|] == begun;
      assert BeginBatches(begun, now) + [] == BeginBatches(begun, now);
      if ended {
        AnswersToSnoc(framework, old(framework.log), BeginBatches(begun, now), Batch([BlockingEnd], now));
        var actions := FireEvents([BlockingEnd], now);
        ApplyAllConcat(old(timers), reentrant, actions, now);
        reentrant := reentrant + actions;
      }
    }

    /**
      * Drains what is due at `now`. The ids returned are the machines whose action
      * timer was due on entry, once each. The framework hears of every machine that
      * starts blocking, once each, and of an end if any blocking ended. What is due
      * afterwards was armed by its answers to these, for `now` itself.
      */
    method DrainExpired(now: nat)
      returns (fired: seq<MachineId>, ghost begun: seq<MachineId>, ghost over: seq<MachineId>,
               ghost reentrant: seq<Action>)
      requires Valid()
      modifies this, framework
      ensures Valid()
      ensures Distinct(fired) && (set id | id in fired) == Expired(old(timers), now)
      ensures Distinct(begun) && forall id :: id in begun <==> id in old(timers) && Begins(old(timers)[id], now)
      ensures var batches := BlockBatches(begun, AnyEnds(old(timers), now), now);
              && framework.log == old(framework.log) + batches
              && reentrant == framework.AnswersTo(old(framework.log), batches)
      ensures Distinct(over) && forall id :: id in over <==> id in old(timers) && Replaces(old(timers)[id], now)
      ensures returned == old(returned) + |fired| && begins == old(begins) + |begun|
      ensures replaced == old(replaced) + |over|
      ensures timers == ApplyAll(DrainAll(old(timers), now), reentrant, now)
      ensures OnlyReentrantDue(timers, reentrant, now)
    {
      var blocking, ended;
      fired, blocking, ended, over := DrainSlots(now);
      begun := blocking;
      assert (ended != []) == AnyEnds(old(timers), now) by {
        SomeEnded(old(timers), ended, now);
      }
      reentrant := FeedBack(blocking, ended != [], now);
      DueWasArmedNow(old(timers), reentrant, now);
    }

    /** The earliest armed action or block-end deadline. */
    method NextTimer() returns (next: Option<nat>)
      ensures next.None? <==> forall id, at: nat | id in timers :: !IsDeadline(timers[id], at)
      ensures next.Some? ==> exists id | id in timers :: IsDeadline(timers[id], next.value)
      ensures forall id, at: nat | id in timers && IsDeadline(timers[id], at) :: next.Some? && next.value <= at
    {
      next := None;
      var todo := timers.Keys;
      while todo != {}
        invariant todo <= timers.Keys
        invariant next.Some? ==> exists id | id in timers :: IsDeadline(timers[id], next.value)
        invariant forall id, at: nat | id in timers && id !in todo && IsDeadline(timers[id], at) ::
            next.Some? && next.value <= at
        decreases todo
      {
        var id :| id in todo;
        todo := todo - {id};
        var s := timers[id];
        if s.action.Some? && (next.None? || s.action.value < next.value) {
          assert IsDeadline(s, s.action.value);
          next := s.action;
        }
        if s.blockEnd.Some? && (next.None? || s.blockEnd.value < next.value) {
          assert IsDeadline(s, s.blockEnd.value);
          next := s.blockEnd;
        }
      }
    }

    /** How long the pump may sleep: never past an armed deadline, so none is missed. */
    method SleepDeadline(now: nat) returns (at: nat)
      ensures forall id, d: nat | id in timers && IsDeadline(timers[id], d) :: at <= d
      ensures at == now + 3_600_000_000_000 || exists id | id in timers :: IsDeadline(timers[id], at)
    {
      var next := NextTimer();
      at := if next.Some? then next.value else now + PLACEHOLDER_SLEEP;
    }
  }

  predicate AnyEnds(timers: Timers, now: nat) {
    exists id | id in timers :: Ends(timers[id], now)
  }

  lemma SomeEnded(timers: Timers, ended: seq<MachineId>, now: nat)
    requires forall id :: id in ended <==> id in timers && Ends(timers[id], now)
    ensures ended != [] <==> AnyEnds(timers, now)
  {
    if ended != [] {
      assert ended[0] in ended;
    }
  }

  /** Whatever is due is an action timer that one of the given actions armed for `now`. */
  ghost predicate OnlyReentrantDue(timers: Timers, reentrant: seq<Action>, now: nat) {
    forall id, at: nat | id in timers && IsDeadline(timers[id], at) && at <= now ::
      at == now && timers[id].blockEnd != Some(at) && exists a | a in reentrant :: Arms(a, id, at, now)
  }

  lemma DueWasArmedNow(before: Timers, reentrant: seq<Action>, now: nat)
    requires Consistent(before)
    ensures OnlyReentrantDue(ApplyAll(DrainAll(before, now), reentrant, now), reentrant, now)
  {
    var quiet := DrainAll(before, now);
    var timers := ApplyAll(quiet, reentrant, now);
    DrainedIsQuiet(before, now);
    ApplyAllKeeps(quiet, reentrant, now);
    forall id, at: nat | id in timers && IsDeadline(timers[id], at) && at <= now
      ensures at == now && timers[id].blockEnd != Some(at) && exists a | a in reentrant :: Arms(a, id, at, now)
    {
      assert SlotOf(timers, id).blockEnd == SlotOf(quiet, id).blockEnd;
      assert id in quiet ==> !IsDeadline(quiet[id], at);
      ArmedBy(quiet, reentrant, now, id, at);
    }
  }

  // ---- Whole runs ----

  /** What a pump may do with the driver, in any order and at any times. */
  datatype Step = Fire(events: seq<Event>, now: nat) | Drain(now: nat)

  /**
    * Any run from scratch over any framework. The exact counts behind the metrics
    * account for every id ever returned and for every block begun: it has ended, is
    * still to end, or was taken over by a later one of its machine. The metrics are
    * these counts, saturated.
    */
  method Run(framework: Framework, script: seq<Step>)
    returns (ids: seq<MachineId>, metrics: Metrics, pending: nat,
             ghost padding: nat, ghost begins: nat, ghost ends: nat, ghost replaced: nat)
    modifies framework
    ensures metrics == Metrics(Sat(padding), Sat(begins), Sat(ends))
    ensures padding + begins == |ids| && begins == ends + pending + replaced
    ensures |ids| <= 0xffff_ffff_ffff_ffff ==>
              && metrics.paddingFired + metrics.blockingBegins == |ids|
              && metrics.blockingEnds + pending + replaced == metrics.blockingBegins
  {
    var state := new DaitaState(framework);
    ids := [];
    for i := 0 to |script|
      invariant state.Valid() && state.framework == framework && fresh(state)
      invariant state.returned == |ids|
    {
      match script[i]
      case Fire(events, now) =>
        var _ := state.FireEvents(events, now);
      case Drain(now) =>
        var fired, _, _, _ := state.DrainExpired(now);
        ids := ids + fired;
    }
    metrics := state.metrics;
    pending := |Pending(state.timers)|;
    padding, begins, ends, replaced := state.padding, state.begins, state.ends, state.replaced;
  }
}
