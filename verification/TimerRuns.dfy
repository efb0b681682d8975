/** What lists of actions do to a machine's timers, and how an armed block lives through a run. */
module TimerRuns {
  import opened Bytes
  import opened Daita

  // ---- What a list of actions leaves armed ----

  /** The action says something about the action timer of a machine. */
  predicate SetsAction(a: Action, id: MachineId) {
    a.machine == id && (a.SendPadding? || a.BlockOutgoing? || (a.Cancel? && a.timer != InternalTimer))
  }

  /** The last action of a list that does. */
  function LastSetter(actions: seq<Action>, id: MachineId): (a: Option<Action>)
  {
    if actions == [] then None
    else
      var n := |actions| - 1;
      if SetsAction(actions[n], id) then Some(actions[n]) else LastSetter(actions[..n], id)
  }

  /** Deadline and kind are what the last word on them says, or as before. */
  predicate ArmedAs(before: Slot, after: Slot, last: Option<Action>, now: nat) {
    match last
    case None => after.action == before.action && after.kind == before.kind
    case Some(SendPadding(_, timeout, _, _)) => after.action == Some(now + timeout) && after.kind == Some(Padding)
    case Some(BlockOutgoing(_, timeout, duration, _, _)) =>
      after.action == Some(now + timeout) && after.kind == Some(Block(duration))
    case Some(_) => after.action == None && after.kind == None
  }

  /** The deadlines the internal timer has a choice of: a clearing action takes all, a replacing one all others. */
  function Candidates(first: Option<nat>, actions: seq<Action>, id: MachineId, now: nat): (ats: seq<nat>)
  {
    if actions == [] then
      if first.Some? then [first.value] else []
    else
      var n := |actions| - 1;
      var a, earlier := actions[n], Candidates(first, actions[..n], id, now);
      if a.machine == id && a.Cancel? && a.timer != ActionTimer then []
      else if a.machine == id && a.UpdateTimer? then (if a.replace then [] else earlier) + [now + a.duration]
      else earlier
  }

  /** The latest of some deadlines, if there are any. */
  predicate IsLatest(at: Option<nat>, ats: seq<nat>) {
    if at.None? then ats == [] else at.value in ats && forall x | x in ats :: x <= at.value
  }

  lemma ApplySnoc(timers: Timers, actions: seq<Action>, now: nat)
    requires actions != []
    ensures var n := |actions| - 1;
            ApplyAll(timers, actions, now) == Apply(ApplyAll(timers, actions[..n], now), actions[n], now)
  {
    hide Apply;
    var n := |actions| - 1;
    assert actions == actions[..n] + [actions[n]] && [actions[n]][1..] == [];
    ApplyAllConcat(timers, actions[..n], [actions[n]], now);
  }

  /**
    * After any list of actions a machine's action timer is as the last action about it
    * says, its internal timer is the latest it was given since it was last cleared or
    * replaced, and its block end is untouched.
    */
  lemma {:induction false} ActionsDecide(timers: Timers, actions: seq<Action>, now: nat, id: MachineId)
    ensures var before, after := SlotOf(timers, id), SlotOf(ApplyAll(timers, actions, now), id);
            && ArmedAs(before, after, LastSetter(actions, id), now)
            && IsLatest(after.internal, Candidates(before.internal, actions, id, now))
            && after.blockEnd == before.blockEnd
    decreases |actions|
  {
    if actions != [] {
      ActionsDecide(timers, actions[..|actions| - 1], now, id);
      ApplySnoc(timers, actions, now);
    }
  }

  /** A machine no action names keeps its slot, and a slot exists for those named. */
  lemma {:induction false} OthersUntouched(timers: Timers, actions: seq<Action>, now: nat, id: MachineId)
    ensures var after := ApplyAll(timers, actions, now);
            && (id in after <==> id in timers || exists a | a in actions :: a.machine == id)
            && ((forall a | a in actions :: a.machine != id) ==> SlotOf(after, id) == SlotOf(timers, id))
    decreases |actions|
  {
    if actions != [] {
      var n := |actions| - 1;
      assert actions == actions[..n] + [actions[n]];
      OthersUntouched(timers, actions[..n], now, id);
      ApplySnoc(timers, actions, now);
    }
  }

  /** A drain looks at no internal timer, and forgets no machine. */
  lemma DrainLeavesInternal(timers: Timers, now: nat, id: MachineId)
    ensures id in DrainAll(timers, now) <==> id in timers
    ensures SlotOf(DrainAll(timers, now), id).internal == SlotOf(timers, id).internal
  {
  }

  // ---- Runs ----

  /** What happens to the timers: answers applied, or a drain and the answers to its feedback. */
  datatype TimerStep = Applied(actions: seq<Action>, now: nat) | Drain(actions: seq<Action>, now: nat)

  function StepTimers(timers: Timers, step: TimerStep): (timers': Timers)
  {
    match step
    case Applied(actions, now) => ApplyAll(timers, actions, now)
    case Drain(actions, now) => ApplyAll(DrainAll(timers, now), actions, now)
  }

  function TimersAfter(timers: Timers, steps: seq<TimerStep>): (timers': Timers)
  {
    if steps == [] then timers
    else
      var n := |steps| - 1;
      StepTimers(TimersAfter(timers, steps[..n]), steps[n])
  }

  /** No action of the step is about the action timer of the machine. */
  predicate LeavesAlone(step: TimerStep, id: MachineId) {
    forall a | a in step.actions :: !SetsAction(a, id)
  }

  /** The steps leave the machine's action timer alone and drain only before `at`. */
  predicate Waits(steps: seq<TimerStep>, id: MachineId, at: nat) {
    forall i | 0 <= i < |steps| :: LeavesAlone(steps[i], id) && (steps[i].Drain? ==> steps[i].now < at)
  }

  lemma {:induction false} NoSetter(actions: seq<Action>, id: MachineId)
    requires forall a | a in actions :: !SetsAction(a, id)
    ensures LastSetter(actions, id) == None
  {
    if actions != [] {
      NoSetter(actions[..|actions| - 1], id);
    }
  }

  lemma KeptByActions(timers: Timers, step: TimerStep, id: MachineId)
    requires id in timers && LeavesAlone(step, id)
    ensures var after := ApplyAll(timers, step.actions, step.now);
            && id in after && after[id].action == timers[id].action
            && after[id].kind == timers[id].kind && after[id].blockEnd == timers[id].blockEnd
  {
    hide ApplyAll, LastSetter;
    NoSetter(step.actions, id);
    ActionsDecide(timers, step.actions, step.now, id);
    OthersUntouched(timers, step.actions, step.now, id);
  }

  /** Until something is due, an armed action stays armed, and an action-free machine stays so. */
  lemma {:induction false} StaysArmed(timers: Timers, steps: seq<TimerStep>, id: MachineId, at: nat)
    requires id in timers && Waits(steps, id, at)
    requires timers[id].action == None || timers[id].action.value >= at
    ensures var after := TimersAfter(timers, steps);
            id in after && after[id].action == timers[id].action && after[id].kind == timers[id].kind
    decreases |steps|
  {
    hide ApplyAll, LeavesAlone;
    if steps != [] {
      var n := |steps| - 1;
      StaysArmed(timers, steps[..n], id, at);
      var before, step := TimersAfter(timers, steps[..n]), steps[n];
      KeptByActions(if step.Drain? then DrainAll(before, step.now) else before, step, id);
    }
  }

  /** Until it is due, a block end stays, on a machine with nothing armed. */
  lemma {:induction false} StaysPending(timers: Timers, steps: seq<TimerStep>, id: MachineId, at: nat)
    requires id in timers && Waits(steps, id, at) && timers[id].action == None && timers[id].blockEnd == Some(at)
    ensures var after := TimersAfter(timers, steps);
            id in after && after[id].action == None && after[id].blockEnd == Some(at)
    decreases |steps|
  {
    hide ApplyAll, LeavesAlone;
    if steps != [] {
      var n := |steps| - 1;
      StaysPending(timers, steps[..n], id, at);
      var before, step := TimersAfter(timers, steps[..n]), steps[n];
      KeptByActions(if step.Drain? then DrainAll(before, step.now) else before, step, id);
    }
  }

  /** No drain among the steps finds the machine's action due. */
  predicate NeverFires(timers: Timers, steps: seq<TimerStep>, id: MachineId) {
    forall i | 0 <= i < |steps| && steps[i].Drain? ::
      id !in Expired(TimersAfter(timers, steps[..i]), steps[i].now)
  }

  /** No drain among the steps ends a block of the machine. */
  predicate NeverEnds(timers: Timers, steps: seq<TimerStep>, id: MachineId) {
    forall i | 0 <= i < |steps| && steps[i].Drain? ::
      var before := TimersAfter(timers, steps[..i]); id in before ==> !Ends(before[id], steps[i].now)
  }

  /**
    * An action armed for `at` and left alone fires at the first drain from then on, and
    * at none before. It begins a block exactly when it was armed as one.
    */
  lemma ActionLife(timers: Timers, id: MachineId, at: nat, kind: Kind, before: seq<TimerStep>, fire: TimerStep)
    requires id in timers && timers[id].action == Some(at) && timers[id].kind == Some(kind)
    requires Waits(before, id, at) && fire.Drain? && at <= fire.now && LeavesAlone(fire, id)
    ensures NeverFires(timers, before, id)
    ensures var due := TimersAfter(timers, before);
            && id in Expired(due, fire.now) && (Begins(due[id], fire.now) <==> kind.Block?)
            && var after := StepTimers(due, fire);
               id in after && after[id].action == None && after[id].kind == None
  {
    hide ApplyAll, LeavesAlone, TimersAfter;
    StaysArmed(timers, before, id, at);
    KeptByActions(DrainAll(TimersAfter(timers, before), fire.now), fire, id);
    forall i | 0 <= i < |before| && before[i].Drain?
      ensures id !in Expired(TimersAfter(timers, before[..i]), before[i].now)
    {
      StaysArmed(timers, before[..i], id, at);
    }
  }

  /**
    * A block armed for `at` and lasting `d`, left alone, begins at the first drain from
    * `at` on and ends at the first drain from `d` after that: the same one if `d` is
    * zero, and otherwise none before.
    */
  lemma BlockLife(timers: Timers, id: MachineId, at: nat, d: nat,
                  before: seq<TimerStep>, begin: TimerStep, during: seq<TimerStep>, end: TimerStep)
    requires id in timers && timers[id].action == Some(at) && timers[id].kind == Some(Block(d))
    requires Waits(before, id, at) && begin.Drain? && at <= begin.now && LeavesAlone(begin, id)
    requires Waits(during, id, begin.now + d) && end.Drain? && begin.now + d <= end.now && LeavesAlone(end, id)
    ensures var due := TimersAfter(timers, before);
            var begun := StepTimers(due, begin);
            && id in due && Begins(due[id], begin.now) && id in begun
            && begun[id].action == None && begun[id].blockEnd == (if d == 0 then None else Some(begin.now + d))
            && (Ends(due[id], begin.now) <==> d == 0)
            && (d > 0 ==>
                  var ending := TimersAfter(begun, during);
                  var ended := StepTimers(ending, end);
                  && NeverFires(begun, during, id) && NeverEnds(begun, during, id)
                  && id in ending && ending[id].blockEnd == Some(begin.now + d)
                  && Ends(ending[id], end.now) && !Begins(ending[id], end.now)
                  && id in ended && ended[id].blockEnd == None)
  {
    hide ApplyAll, LeavesAlone, TimersAfter;
    var due := TimersAfter(timers, before);
    StaysArmed(timers, before, id, at);
    KeptByActions(DrainAll(due, begin.now), begin, id);
    var begun := StepTimers(due, begin);
    if d > 0 {
      StaysPending(begun, during, id, begin.now + d);
      KeptByActions(DrainAll(TimersAfter(begun, during), end.now), end, id);
      forall i | 0 <= i < |during| && during[i].Drain?
        ensures var now := TimersAfter(begun, during[..i]);
                id in now && id !in Expired(now, during[i].now) && !Ends(now[id], during[i].now)
      {
        StaysPending(begun, during[..i], id, begin.now + d);
      }
    }
  }
}
