/**
 * The decision logic of the main window: the startup repair run by
 * Form1_Load, the toggle button, and the status text. Dialogs, colours and
 * the process exit are left to the caller; which repair notices were shown
 * and whether the run ended are returned as values.
 */
module Form {
  import opened Values
  import opened Registry
  import opened ScriptHost

  /** The notice shown after a repair: "Configuration Corrupt!" or "Configuration Mismatch!". */
  datatype Repair = CorruptRepair | MismatchRepair

  /** What startup leaves behind: the store, the repair notices shown, and
    * whether an error ended the run. */
  datatype Startup = Startup(store: Store, repairs: seq<Repair>, exited: bool)

  /** The status label's text. */
  function StatusText(enabled: bool): (t: string)
    ensures t == "Enabled" <==> enabled
    ensures t == "Disabled" <==> !enabled
  {
    if enabled then "Enabled" else "Disabled"
  }

  /** Form1_Load's checks: when the setting exists anywhere, disable if the kinds
    * are not both DWORD, and then, reading the store again, disable if the
    * hives do not match. A failed write ends the run. */
  function StartupCheck(s: Store): (r: Startup)
    // unconfigured: nothing is written
    ensures !AnyValueExists(s) ==> r == Startup(s, [], false)
    // a wrong kind is repaired first, by Disable
    ensures AnyValueExists(s) && !IsValueKindDword(s) ==>
      if r.exited then r.repairs == [] && r.store == Force(s, 0).0 else |r.repairs| > 0 && r.repairs[0] == CorruptRepair
    // a run that ends shows no notice: the Disable that fails is the first one, and it throws
    // before its MessageBox (a Disable that succeeded once succeeds again)
    ensures r.exited ==> r.repairs == []
    // an already clean configuration is left alone
    ensures AnyValueExists(s) && IsValueKindDword(s) && IsConfigMatching(s) ==> r == Startup(s, [], false)
    // any needed repair leaves the store Disable leaves, and the run ends iff that Disable failed
    ensures AnyValueExists(s) && !(IsValueKindDword(s) && IsConfigMatching(s)) ==>
      r.store == Force(s, 0).0 && r.exited == Force(s, 0).1.Fail?
    // right kinds but disagreeing hives: one mismatch repair, or an exit
    ensures AnyValueExists(s) && IsValueKindDword(s) && !IsConfigMatching(s) ==>
      r.repairs == (if r.exited then [] else [MismatchRepair])
    // after a successful corrupt repair the match check runs again, on the repaired store
    ensures AnyValueExists(s) && !IsValueKindDword(s) && !r.exited ==>
      r.repairs == [CorruptRepair] + (if IsConfigMatching(Force(s, 0).0) then [] else [MismatchRepair])
    ensures |r.repairs| <= 2
  {
    ForceOverrides(s, 0, 0);
    if !AnyValueExists(s) then Startup(s, [], false)
    else
      var afterKindCheck :=
        if IsValueKindDword(s) then Startup(s, [], false)
        else
          var (s1, o1) := Force(s, 0);
          if o1.Fail? then Startup(s1, [], true) else Startup(s1, [CorruptRepair], false);
      if afterKindCheck.exited || IsConfigMatching(afterKindCheck.store) then afterKindCheck
      else
        var (s2, o2) := Force(afterKindCheck.store, 0);
        if o2.Fail? then Startup(s2, afterKindCheck.repairs, true)
        else Startup(s2, afterKindCheck.repairs + [MismatchRepair], false)
  }

  /** On a healthy store startup never ends the run, shows at most one notice,
    * and leaves a clean configuration; after a repair it reads as disabled. */
  lemma StartupRepairsHealthyStore(s: Store)
    requires Healthy(s) && AnyValueExists(s)
    ensures var r := StartupCheck(s);
      !r.exited && |r.repairs| <= 1 &&
      IsValueKindDword(r.store) && IsConfigMatching(r.store) &&
      (r.repairs != [] ==> !IsEnabled(r.store))
  {
    if !IsValueKindDword(s) {
      ForceSettles(s, 0);
    } else if !IsConfigMatching(s) {
      ForceSettles(s, 0);
    }
  }

  /** When a repair is needed and LocalMachine refuses the write, startup ends
    * with nothing written and no notice shown. */
  lemma StartupExitsWhenLocalMachineRefuses(s: Store)
    requires AnyValueExists(s) && !(IsValueKindDword(s) && IsConfigMatching(s))
    requires Rejects(s, LocalMachine)
    ensures StartupCheck(s) == Startup(s, [], true)
  {
  }

  /** The two checks are not exclusive: a string "1" in LocalMachine with no
    * settings key in CurrentUser is repaired as corrupt and then, still one-sided,
    * as mismatched. */
  lemma StartupBothRepairs(s: Store)
    requires s.keys == map[Setting(LocalMachine) := map[EnabledName := Entry(String, Str("1"))]]
    requires s.access == Access({}, {})
    ensures StartupCheck(s).repairs == [CorruptRepair, MismatchRepair]
    ensures !StartupCheck(s).exited && !IsEnabled(StartupCheck(s).store)
  {
  }

  /** Two empty strings, the only data the reference comparison reports as
    * matching, are REG_SZ or REG_EXPAND_SZ values, so the kind check repairs
    * them before the match check is reached. */
  lemma EmptyStringsAreRepaired(s: Store, k1: Kind, k2: Kind)
    requires k1 == String || k1 == ExpandString
    requires k2 == String || k2 == ExpandString
    requires Binding(s, LocalMachine) == Some(Entry(k1, Str("")))
    requires Binding(s, CurrentUser) == Some(Entry(k2, Str("")))
    ensures AnyValueExists(s) && !IsValueKindDword(s)
    ensures StartupCheck(s).store == Force(s, 0).0
    ensures !StartupCheck(s).exited ==> StartupCheck(s).repairs[0] == CorruptRepair
  {
  }

  /** The toggle button: Disable when the effective state is enabled, Enable otherwise. */
  function Toggle(s: Store): (r: (Store, Outcome))
    ensures IsEnabled(s) ==> r == Force(s, 0)
    ensures !IsEnabled(s) ==> r == Force(s, 1)
  {
    if IsEnabled(s) then Force(s, 0) else Force(s, 1)
  }

  /** On a healthy store the toggle succeeds, flips the effective state and
    * leaves a clean configuration. */
  lemma ToggleFlips(s: Store)
    requires Healthy(s)
    ensures var (s', o) := Toggle(s);
      o == Pass && IsEnabled(s') == !IsEnabled(s) && IsValueKindDword(s') && IsConfigMatching(s')
  {
  }

  /** From an unconfigured store the toggle disables (the default state is
    * enabled). With both settings keys present and writable the store then reads
    * as disabled; with neither key present nothing is written and it still reads
    * as enabled. */
  lemma ToggleFromUnconfigured(s: Store)
    requires !AnyValueExists(s)
    ensures Toggle(s) == Force(s, 0)
    ensures Healthy(s) ==> !IsEnabled(Toggle(s).0) && IsConfigMatching(Toggle(s).0)
    ensures Setting(LocalMachine) !in s.keys && Setting(CurrentUser) !in s.keys ==> IsEnabled(Toggle(s).0)
  {
  }

  /** The main window: the service it drives and the status label's text. */
  class Form1 {
    const scriptHostService: ScriptHostService
    var statusText: string

    constructor(scriptHostService: ScriptHostService)
      ensures this.scriptHostService == scriptHostService && statusText == ""
    {
      this.scriptHostService := scriptHostService;
      statusText := "";
    }

    /** Shows the effective state in the status label. */
    method ToggleInterfaceStatus()
      modifies this
      ensures statusText == StatusText(IsEnabled(scriptHostService.registry.Snapshot()))
    {
      var isEnabled := IsEnabled(scriptHostService.registry.Snapshot());
      statusText := StatusText(isEnabled);
    }

    /** Startup: the repair checks, then the status label; any error ends the run
      * before the label is set. */
    method Load() returns (repairs: seq<Repair>, exited: bool)
      modifies this, scriptHostService.registry
      ensures var r := StartupCheck(old(scriptHostService.registry.Snapshot()));
        scriptHostService.registry.Snapshot() == r.store && repairs == r.repairs && exited == r.exited
      ensures statusText == if exited then old(statusText)
                            else StatusText(IsEnabled(scriptHostService.registry.Snapshot()))
    {
      repairs, exited := [], false;
      var registry := scriptHostService.registry;
      if AnyValueExists(registry.Snapshot()) {
        if !IsValueKindDword(registry.Snapshot()) {
          var o := scriptHostService.Disable();
          if o.Fail? {
            exited := true;
            return;
          }
          repairs := repairs + [CorruptRepair];
        }
        if !IsConfigMatching(registry.Snapshot()) {
          var o := scriptHostService.Disable();
          if o.Fail? {
            exited := true;
            return;
          }
          repairs := repairs + [MismatchRepair];
        }
      }
      ToggleInterfaceStatus();
    }

    /** The toggle button; an error from the write leaves the label as it was. */
    method ToggleButtonClick() returns (r: Outcome)
      modifies this, scriptHostService.registry
      ensures (scriptHostService.registry.Snapshot(), r) == Toggle(old(scriptHostService.registry.Snapshot()))
      ensures statusText == if r.Fail? then old(statusText)
                            else StatusText(IsEnabled(scriptHostService.registry.Snapshot()))
    {
      if IsEnabled(scriptHostService.registry.Snapshot()) {
        r := scriptHostService.Disable();
      } else {
        r := scriptHostService.Enable();
      }
      if r.Fail? {
        return;
      }
      ToggleInterfaceStatus();
    }
  }
}
