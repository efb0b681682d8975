/** Installing, rolling back and removing the macOS killswitch over fallible pf operations. */
module PfLifecycle {
  import opened Bytes
  import opened PfPolicy
  import PfAgreement

  datatype KillswitchError = InvalidInput | PfError | UnconfirmedStates

  datatype Op = IsEnabled | Enable | Disable | AddAnchor | FlushRules | AddRule | PurgeStates

  /**
    * The host's packet filter. Operation number n fails when `fails(n)`, changing
    * nothing; purge number n reports `reports(n)`. Both are arbitrary.
    */
  class Pf {
    var enabled: bool
    /** The rules in the killswitch anchor. */
    var rules: seq<Rule>
    var lastReport: PurgeReport
    /** Every operation issued so far, worked or not. */
    var log: seq<Op>
    const fails: nat -> bool
    const reports: nat -> PurgeReport

    constructor (enabled: bool, rules: seq<Rule>, fails: nat -> bool, reports: nat -> PurgeReport)
      ensures this.enabled == enabled && this.rules == rules && log == []
      ensures this.fails == fails && this.reports == reports
    {
      this.enabled := enabled;
      this.rules := rules;
      this.lastReport := PurgeReport(0, []);
      this.log := [];
      this.fails := fails;
      this.reports := reports;
    }

    /** The operations numbered `from` up to but not including `to` work. */
    predicate Works(from: nat, to: nat) {
      forall i | from <= i < to :: !fails(i)
    }

    /** Every operation from number `from` on worked. */
    predicate WorkedSince(from: nat)
      reads this
    {
      Works(from, |log|)
    }

    method ReadEnabled() returns (r: Result<bool, KillswitchError>)
      modifies this`log
      ensures log == old(log) + [IsEnabled]
      ensures r == if fails(|old(log)|) then Err(PfError) else Ok(enabled)
    {
      r := if fails(|log|) then Err(PfError) else Ok(enabled);
      log := log + [IsEnabled];
    }

    method SetEnabled(on: bool) returns (r: Result<(), KillswitchError>)
      modifies this`log, this`enabled
      ensures log == old(log) + [if on then Enable else Disable]
      ensures r == if fails(|old(log)|) then Err(PfError) else Ok(())
      ensures enabled == if r.Ok? then on else old(enabled)
    {
      var failed := fails(|log|);
      log := log + [if on then Enable else Disable];
      if failed {
        return Err(PfError);
      }
      enabled := on;
      return Ok(());
    }

    method RegisterAnchor() returns (r: Result<(), KillswitchError>)
      modifies this`log
      ensures log == old(log) + [AddAnchor]
      ensures r == if fails(|old(log)|) then Err(PfError) else Ok(())
    {
      r := if fails(|log|) then Err(PfError) else Ok(());
      log := log + [AddAnchor];
    }

    method Flush() returns (r: Result<(), KillswitchError>)
      modifies this`log, this`rules
      ensures log == old(log) + [FlushRules]
      ensures r == if fails(|old(log)|) then Err(PfError) else Ok(())
      ensures rules == if r.Ok? then [] else old(rules)
    {
      var failed := fails(|log|);
      log := log + [FlushRules];
      if failed {
        return Err(PfError);
      }
      rules := [];
      return Ok(());
    }

    /** Appends at the tail of whatever the anchor holds. */
    method Append(rule: Rule) returns (r: Result<(), KillswitchError>)
      modifies this`log, this`rules
      ensures log == old(log) + [AddRule]
      ensures r == if fails(|old(log)|) then Err(PfError) else Ok(())
      ensures rules == if r.Ok? then old(rules) + [rule] else old(rules)
    {
      var failed := fails(|log|);
      log := log + [AddRule];
      if failed {
        return Err(PfError);
      }
      rules := rules + [rule];
      return Ok(());
    }

    method Purge() returns (r: Result<PurgeReport, KillswitchError>)
      modifies this`log, this`lastReport
      ensures log == old(log) + [PurgeStates]
      ensures r == if fails(|old(log)|) then Err(PfError) else Ok(reports(|old(log)|))
      ensures lastReport == if r.Ok? then r.value else old(lastReport)
    {
      var n := |log|;
      log := log + [PurgeStates];
      if fails(n) {
        return Err(PfError);
      }
      lastReport := reports(n);
      return Ok(reports(n));
    }
  }

  function AddRules(n: nat): (ops: seq<Op>)
    ensures |ops| == n && forall i | 0 <= i < n :: ops[i] == AddRule
  {
    if n == 0 then [] else AddRules(n - 1) + [AddRule]
  }

  /** The operations of a complete load: the anchor is emptied before the first rule goes in. */
  function LoadOps(n: nat): (ops: seq<Op>)
  {
    [Enable, AddAnchor, FlushRules] + AddRules(n)
  }

  /**
    * The operations of a complete install: the enable state is read before it is set,
    * and states are purged after the rules are in.
    */
  function InstallOps(n: nat): (ops: seq<Op>)
  {
    [IsEnabled, PurgeStates] + LoadOps(n) + [PurgeStates]
  }

  /** How many of `n` operations from number `at` on work before one fails. */
  function Working(pf: Pf, at: nat, n: nat): (k: nat)
    ensures k <= n && pf.Works(at, at + k) && (k < n ==> pf.fails(at + k))
    decreases n
  {
    if n == 0 || pf.fails(at) then 0 else 1 + Working(pf, at + 1, n - 1)
  }

  /**
    * What a failed load leaves, when `before` and `held` were the log and the anchor
    * before it. The load stops at its first failing operation. If that is before any
    * rule was tried, the anchor is untouched; otherwise a clean-up flush follows, with
    * an empty anchor if it works and the rules that went in if it does not.
    */
  predicate LoadFailed(pf: Pf, before: seq<Op>, held: seq<Rule>, rules: seq<Rule>)
    reads pf
  {
    var ops := LoadOps(|rules|);
    var k := Working(pf, |before|, |ops|);
    && k < |ops|
    && if k < 3 then pf.log == before + ops[..k + 1] && pf.rules == held
       else
         && pf.log == before + ops[..k + 1] + [FlushRules]
         && pf.rules == if pf.fails(|before| + k + 1) then rules[..k - 3] else []
  }

  /**
    * Loads `rules` into an emptied anchor, and succeeds exactly when every operation
    * of the load works. Then the anchor holds exactly the rules, whatever was there
    * before.
    */
  method ApplyRules(pf: Pf, rules: seq<Rule>) returns (r: Result<(), KillswitchError>)
    modifies pf`log, pf`enabled, pf`rules
    ensures r == if pf.Works(|old(pf.log)|, |old(pf.log)| + |LoadOps(|rules|)|) then Ok(()) else Err(PfError)
    ensures pf.enabled == (old(pf.enabled) || !pf.fails(|old(pf.log)|))
    ensures r.Ok? ==> pf.enabled && pf.rules == rules && pf.log == old(pf.log) + LoadOps(|rules|)
    ensures r.Err? ==> LoadFailed(pf, old(pf.log), old(pf.rules), rules)
  {
    hide LoadFailed, Working, AddRules;
    ghost var before, held := pf.log, pf.rules;
    r := PrepareAnchor(pf);
    if r.Err? {
      StoppedEarly(pf, before, held, rules);
      return;
    }
    r := AppendRules(pf, rules);
    if r.Err? {
      StoppedLate(pf, before, held, rules);
    }
  }

  /** What comes before the rules: pf on, the anchor registered, and nothing in it. */
  method PrepareAnchor(pf: Pf) returns (r: Result<(), KillswitchError>)
    modifies pf`log, pf`enabled, pf`rules
    ensures r == if pf.Works(|old(pf.log)|, |old(pf.log)| + 3) then Ok(()) else Err(PfError)
    ensures pf.enabled == (old(pf.enabled) || !pf.fails(|old(pf.log)|))
    ensures r.Ok? ==> pf.log == old(pf.log) + [Enable, AddAnchor, FlushRules] && pf.rules == []
    ensures r.Err? ==>
              var k := Working(pf, |old(pf.log)|, 3);
              k < 3 && pf.log == old(pf.log) + [Enable, AddAnchor, FlushRules][..k + 1] && pf.rules == old(pf.rules)
  {
    hide Working;
    r := pf.SetEnabled(true);
    if r.Err? {
      FirstFailure(pf, |old(pf.log)|, 3, 0);
      return;
    }
    r := pf.RegisterAnchor();
    if r.Err? {
      FirstFailure(pf, |old(pf.log)|, 3, 1);
      return;
    }
    r := pf.Flush();
    if r.Err? {
      FirstFailure(pf, |old(pf.log)|, 3, 2);
    }
  }

  lemma FirstFailure(pf: Pf, at: nat, n: nat, k: nat)
    requires k < n && pf.Works(at, at + k) && pf.fails(at + k)
    ensures Working(pf, at, n) == k && !pf.Works(at, at + n)
  {
  }

  lemma LoadBegins(n: nat, k: nat)
    requires k <= n
    ensures |LoadOps(n)| == n + 3 && LoadOps(n)[..k + 3] == [Enable, AddAnchor, FlushRules] + AddRules(k)
    ensures AddRules(0) == []
  {
  }

  lemma StoppedEarly(pf: Pf, before: seq<Op>, held: seq<Rule>, rules: seq<Rule>)
    requires var k := Working(pf, |before|, 3);
             k < 3 && pf.log == before + [Enable, AddAnchor, FlushRules][..k + 1] && pf.rules == held
    ensures LoadFailed(pf, before, held, rules) && !pf.Works(|before|, |before| + |LoadOps(|rules|)|)
  {
    hide Working, LoadOps;
    var k := Working(pf, |before|, 3);
    LoadBegins(|rules|, 0);
    FirstFailure(pf, |before|, |LoadOps(|rules|)|, k);
    assert LoadOps(|rules|)[..k + 1] == LoadOps(|rules|)[..3][..k + 1];
  }

  /** The rules begin at the fourth operation of a load. */
  lemma StoppedLate(pf: Pf, before: seq<Op>, held: seq<Rule>, rules: seq<Rule>)
    requires pf.Works(|before|, |before| + 3)
    requires var at := |before| + 3;
             var k := Working(pf, at, |rules|);
             && k < |rules|
             && pf.log == before + [Enable, AddAnchor, FlushRules] + AddRules(k + 1) + [FlushRules]
             && pf.rules == if pf.fails(at + k + 1) then rules[..k] else []
    ensures LoadFailed(pf, before, held, rules) && !pf.Works(|before|, |before| + |LoadOps(|rules|)|)
  {
    hide Working, LoadOps, AddRules;
    var k := Working(pf, |before| + 3, |rules|);
    LoadBegins(|rules|, k + 1);
    FirstFailure(pf, |before|, |rules| + 3, k + 3);
    assert before + ([Enable, AddAnchor, FlushRules] + AddRules(k + 1)) ==
           before + [Enable, AddAnchor, FlushRules] + AddRules(k + 1);
  }

  /** The rules one by one, cleaning up after the first that does not go in. */
  method AppendRules(pf: Pf, rules: seq<Rule>) returns (r: Result<(), KillswitchError>)
    requires pf.rules == []
    modifies pf`log, pf`rules
    ensures r == if pf.Works(|old(pf.log)|, |old(pf.log)| + |rules|) then Ok(()) else Err(PfError)
    ensures r.Ok? ==> pf.rules == rules && pf.log == old(pf.log) + AddRules(|rules|)
    ensures r.Err? ==>
              var k := Working(pf, |old(pf.log)|, |rules|);
              && k < |rules|
              && pf.log == old(pf.log) + AddRules(k + 1) + [FlushRules]
              && pf.rules == if pf.fails(|old(pf.log)| + k + 1) then rules[..k] else []
  {
    for i := 0 to |rules|
      invariant pf.rules == rules[..i]
      invariant pf.log == old(pf.log) + AddRules(i)
      invariant pf.WorkedSince(|old(pf.log)|)
    {
      var added := pf.Append(rules[i]);
      if added.Err? {
        FirstFailure(pf, |old(pf.log)|, |rules|, i);
        var _ := pf.Flush();
        return added;
      }
    }
    return Ok(());
  }

  /** Empties the anchor, then turns pf back off if it was off; failures are only logged. */
  method RollBackInstall(pf: Pf, pfWasEnabled: bool)
    requires pf.enabled
    modifies pf`log, pf`enabled, pf`rules
    ensures pf.log == old(pf.log) + TeardownOps(pfWasEnabled)
    ensures pf.WorkedSince(|old(pf.log)|) ==> pf.rules == [] && pf.enabled == pfWasEnabled
  {
    var _ := pf.Flush();
    if pfWasEnabled {
      return;
    }
    var _ := pf.SetEnabled(false);
  }

  /** How far an install gets. */
  datatype Stage = Refused | Loading | Confirming | Installed

  /** How far an install whose first operation is number `at` gets: the operations and the reports decide. */
  function StageOf(opts: Opts, pf: Pf, at: nat): (stage: Stage)
  {
    var flows := FromOpts(opts);
    var purge := at + 2 + |LoadOps(|Specs(opts)|)|;
    if !Validated(opts) || !pf.Works(at, at + 2) || !Confirmed(pf.reports(at + 1), flows) then Refused
    else if !pf.Works(at + 2, purge) then Loading
    else if pf.fails(purge) || !Confirmed(pf.reports(purge), flows) then Confirming
    else Installed
  }

  /** The operations of a teardown or rollback: empty the anchor, and turn pf off if it was off. */
  function TeardownOps(pfWasEnabled: bool): (ops: seq<Op>)
  {
    [FlushRules] + if pfWasEnabled then [] else [Disable]
  }

  class Killswitch {
    var installed: bool
    const pfWasEnabled: bool
    const pf: Pf

    constructor (pf: Pf, pfWasEnabled: bool)
      ensures installed && this.pf == pf && this.pfWasEnabled == pfWasEnabled
    {
      this.installed := true;
      this.pf := pf;
      this.pfWasEnabled := pfWasEnabled;
    }

    /** What every teardown does to pf, when `from` is its first operation. */
    twostate predicate TornDown(from: nat)
      reads pf
    {
      && pf.log == old(pf.log) + TeardownOps(pfWasEnabled)
      && from == |old(pf.log)|
      && (!pf.fails(from) ==> pf.rules == [])
      && (pf.WorkedSince(from) ==> pf.enabled == (pfWasEnabled && old(pf.enabled)))
    }

    /** Empties the anchor and restores pf's enable state; only the flush can fail the call. */
    method Uninstall() returns (r: Result<(), KillswitchError>)
      modifies this`installed, pf`log, pf`enabled, pf`rules
      ensures TornDown(|old(pf.log)|) && !installed
      ensures r.Ok? <==> !pf.fails(|old(pf.log)|)
    {
      r := pf.Flush();
      RestoreEnableState();
      installed := false;
    }

    method RestoreEnableState()
      modifies pf`log, pf`enabled
      ensures pf.log == old(pf.log) + (if pfWasEnabled then [] else [Disable])
      ensures !pfWasEnabled && !pf.fails(|old(pf.log)|) ==> !pf.enabled
      ensures pfWasEnabled ==> pf.enabled == old(pf.enabled)
    {
      if pfWasEnabled {
        return;
      }
      var _ := pf.SetEnabled(false);
    }

    /** The guard going out of scope: tears down unless an uninstall already did. */
    method Drop()
      modifies pf`log, pf`enabled, pf`rules
      ensures if installed then TornDown(|old(pf.log)|) else unchanged(pf)
    {
      if !installed {
        return;
      }
      var _ := pf.Flush();
      if !pfWasEnabled {
        var _ := pf.SetEnabled(false);
      }
    }
  }

  /** The operations issued before a refusal. */
  function RefusedOps(opts: Opts, pf: Pf, at: nat): (ops: seq<Op>)
  {
    if !Validated(opts) then [] else if pf.fails(at) then [IsEnabled] else [IsEnabled, PurgeStates]
  }

  /** Validation, the enable-state snapshot and the first purge: nothing here touches rules or enable state. */
  method Preflight(opts: Opts, pf: Pf) returns (r: Result<bool, KillswitchError>)
    modifies pf`log, pf`lastReport
    ensures pf.log == old(pf.log) + RefusedOps(opts, pf, |old(pf.log)|)
    ensures r == if !Validated(opts) then Err(InvalidInput)
                 else if !pf.Works(|old(pf.log)|, |old(pf.log)| + 2) then Err(PfError)
                 else if Confirmed(pf.reports(|old(pf.log)| + 1), FromOpts(opts)) then Ok(pf.enabled)
                 else Err(UnconfirmedStates)
  {
    hide FromOpts, BypassSurvivors, ValidTunName;
    if !ValidTunName(opts.tunName) || !ValidCarrierScope(opts) {
      return Err(InvalidInput);
    }
    var was := pf.ReadEnabled();
    if was.Err? {
      return Err(was.error);
    }
    var preflight := pf.Purge();
    if preflight.Err? {
      return Err(preflight.error);
    }
    if BypassSurvivors(preflight.value.survivors, FromOpts(opts)) > 0 {
      return Err(UnconfirmedStates);
    }
    return Ok(was.value);
  }

  /** The purge after loading, and the rollback when it fails or leaves a bypass. */
  method Confirm(opts: Opts, pf: Pf, pfWasEnabled: bool) returns (r: Result<(), KillswitchError>)
    requires pf.enabled
    modifies pf
    ensures var at := |old(pf.log)|;
            r == if !pf.fails(at) && Confirmed(pf.reports(at), FromOpts(opts)) then Ok(()) else Err(PfError)
    ensures r.Ok? ==>
              && pf.enabled && pf.rules == old(pf.rules) && pf.log == old(pf.log) + [PurgeStates]
              && pf.lastReport == pf.reports(|old(pf.log)|)
    ensures r.Err? ==>
              && pf.log == old(pf.log) + [PurgeStates] + TeardownOps(pfWasEnabled)
              && (pf.WorkedSince(|old(pf.log)| + 1) ==> pf.rules == [] && pf.enabled == pfWasEnabled)
  {
    hide FromOpts, BypassSurvivors;
    var purge := pf.Purge();
    if purge.Err? || !Confirmed(purge.value, FromOpts(opts)) {
      RollBackInstall(pf, pfWasEnabled);
      return Err(PfError);
    }
    return Ok(());
  }

  /** The rule set passes no packet that the rules of the options block. */
  ghost predicate FailsClosed(rules: seq<Rule>, opts: Opts) {
    forall p :: Passes(rules, p) ==> Passes(Specs(opts), p)
  }

  lemma FrontFailsClosed(rules: seq<Rule>, opts: Opts)
    requires rules <= Specs(opts) && rules != []
    ensures FailsClosed(rules, opts)
  {
    hide Specs, Passes;
    forall p | Passes(rules, p)
      ensures Passes(Specs(opts), p)
    {
      PfAgreement.PartialLoadFailsClosed(opts, rules, p);
    }
  }

  lemma AnchorAfterFailedLoad(pf: Pf, before: seq<Op>, held: seq<Rule>, opts: Opts)
    requires LoadFailed(pf, before, held, Specs(opts))
    ensures pf.rules == held || pf.rules == [] || FailsClosed(pf.rules, opts)
  {
    hide Specs, FailsClosed;
    if pf.rules != [] && pf.rules <= Specs(opts) {
      FrontFailsClosed(pf.rules, opts);
    }
  }

  lemma InstallLog(before: seq<Op>, n: nat)
    ensures before + InstallOps(n) == before + [IsEnabled, PurgeStates] + LoadOps(n) + [PurgeStates]
    ensures |InstallOps(n)| == |LoadOps(n)| + 3
  {
  }

  /**
    * The install. How far it gets is decided by validation, by which operations work
    * and by the two purge reports. Success means pf is on, the anchor holds exactly
    * the rules of the options in order, and the purge after them left no bypass. A
    * refusal touches neither rules nor enable state. A failed load leaves pf on unless
    * turning it on is what failed, and an anchor as it was, empty, or no more
    * permissive than intended. A failed confirmation is followed by the rollback, and
    * if that works the anchor is empty and the enable state the original.
    */
  method Install(opts: Opts, pf: Pf) returns (r: Result<Killswitch, KillswitchError>)
    modifies pf
    ensures r.Ok? <==> StageOf(opts, pf, |old(pf.log)|) == Installed
    ensures r.Ok? ==>
              && pf.enabled && pf.rules == Specs(opts)
              && pf.log == old(pf.log) + InstallOps(|Specs(opts)|)
              && Confirmed(pf.lastReport, FromOpts(opts)) && pf.lastReport == pf.reports(|pf.log| - 1)
              && fresh(r.value) && r.value.pf == pf && r.value.installed && r.value.pfWasEnabled == old(pf.enabled)
    ensures StageOf(opts, pf, |old(pf.log)|) == Refused ==>
              && pf.rules == old(pf.rules) && pf.enabled == old(pf.enabled)
              && pf.log == old(pf.log) + RefusedOps(opts, pf, |old(pf.log)|)
              && r == Err(if !Validated(opts) then InvalidInput
                          else if !pf.Works(|old(pf.log)|, |old(pf.log)| + 2) then PfError
                          else UnconfirmedStates)
    ensures StageOf(opts, pf, |old(pf.log)|) == Loading ==>
              && r == Err(PfError)
              && LoadFailed(pf, old(pf.log) + [IsEnabled, PurgeStates], old(pf.rules), Specs(opts))
              && (pf.rules == old(pf.rules) || pf.rules == [] || FailsClosed(pf.rules, opts))
              && pf.enabled == (old(pf.enabled) || !pf.fails(|old(pf.log)| + 2))
    ensures StageOf(opts, pf, |old(pf.log)|) == Confirming ==>
              && r == Err(PfError)
              && pf.log == old(pf.log) + InstallOps(|Specs(opts)|) + TeardownOps(old(pf.enabled))
              && (pf.WorkedSince(|old(pf.log)| + |InstallOps(|Specs(opts)|)|) ==>
                    pf.rules == [] && pf.enabled == old(pf.enabled))
  {
    hide Specs, FromOpts, BypassSurvivors, Validated, FailsClosed, LoadFailed, LoadOps, InstallOps;
    InstallLog(pf.log, |Specs(opts)|);
    ghost var held := pf.rules;
    var was := Preflight(opts, pf);
    if was.Err? {
      return Err(was.error);
    }
    var rules := PfRuleSpecs(opts);
    ghost var before := pf.log;
    var applied := ApplyRules(pf, rules);
    if applied.Err? {
      AnchorAfterFailedLoad(pf, before, held, opts);
      return Err(applied.error);
    }
    var confirmed := Confirm(opts, pf, was.value);
    if confirmed.Err? {
      return Err(confirmed.error);
    }
    var guard := new Killswitch(pf, was.value);
    return Ok(guard);
  }

  /**
    * A whole session: install, perhaps an explicit uninstall, then the guard's drop.
    * Exactly one teardown runs, and with working operations the host ends with its
    * original enable state and an empty anchor.
    */
  method Session(opts: Opts, pf: Pf, explicit: bool)
    modifies pf
    ensures StageOf(opts, pf, |old(pf.log)|) == Installed ==>
              && pf.log == old(pf.log) + InstallOps(|Specs(opts)|) + TeardownOps(old(pf.enabled))
              && (pf.WorkedSince(|old(pf.log)| + |InstallOps(|Specs(opts)|)|) ==>
                    pf.rules == [] && pf.enabled == old(pf.enabled))
  {
    hide Specs, FromOpts, BypassSurvivors, Validated, InstallOps, StageOf, LoadFailed, FailsClosed;
    var r := Install(opts, pf);
    if r.Ok? {
      if explicit {
        var _ := r.value.Uninstall();
      }
      r.value.Drop();
    }
  }

  /** The enable state is not restored after a failed load: pf is off, and registering the anchor fails. */
  method FailedLoadLeavesPfOn(opts: Opts, pf: Pf) returns (r: Result<Killswitch, KillswitchError>)
    requires Validated(opts) && Confirmed(pf.reports(|pf.log| + 1), FromOpts(opts))
    requires !pf.enabled && pf.Works(|pf.log|, |pf.log| + 3) && pf.fails(|pf.log| + 3)
    modifies pf
    ensures StageOf(opts, pf, |old(pf.log)|) == Loading && r == Err(PfError)
    ensures pf.log == old(pf.log) + [IsEnabled, PurgeStates, Enable, AddAnchor]
    ensures pf.enabled && pf.rules == old(pf.rules)
  {
    hide Specs, FromOpts, Validated, FailsClosed, BypassSurvivors;
    var at := |pf.log|;
    var n := |LoadOps(|Specs(opts)|)|;
    FirstFailure(pf, at + 2, n, 1);
    r := Install(opts, pf);
    assert LoadOps(|Specs(opts)|)[..2] == [Enable, AddAnchor];
  }

  /** Such a pf exists: one that has done nothing yet and fails its fourth operation. */
  method FailedLoadExample(opts: Opts) returns (pf: Pf)
    requires Validated(opts)
    ensures pf.log == [IsEnabled, PurgeStates, Enable, AddAnchor] && pf.enabled
  {
    pf := new Pf(false, [], n => n == 3, _ => PurgeReport(0, []));
    var _ := FailedLoadLeavesPfOn(opts, pf);
  }

  /**
    * The order of an install: the enable state is read before it is set, the anchor is
    * emptied before the first rule and only then, and states are purged once before and
    * once after all rules.
    */
  lemma InstallOrder(n: nat)
    ensures var ops := InstallOps(n);
            && |ops| == n + 6
            && ops[0] == IsEnabled && ops[1] == PurgeStates && ops[2] == Enable && ops[3] == AddAnchor
            && ops[4] == FlushRules && ops[n + 5] == PurgeStates
            && (forall i | 5 <= i < n + 5 :: ops[i] == AddRule)
    ensures TeardownOps(true) == [FlushRules] && TeardownOps(false) == [FlushRules, Disable]
  {
  }

  /** A refused install issued nothing for options it does not accept, and otherwise at most a read and a purge. */
  lemma RefusalOrder(opts: Opts, pf: Pf, at: nat)
    ensures var ops := RefusedOps(opts, pf, at);
            && ops <= [IsEnabled, PurgeStates]
            && (ops == [] <==> !Validated(opts)) && (PurgeStates in ops <==> Validated(opts) && !pf.fails(at))
  {
  }
}
