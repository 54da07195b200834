/**
 * ScriptHostService: the Windows Script Host "Enabled" setting, mirrored under
 * the same subkey of the LocalMachine and CurrentUser hives.
 *
 * The four queries read the store afresh on every call; each is a function of
 * a store snapshot. Enable and Disable overwrite both hives, LocalMachine
 * first, through RegistryService.SetValue; `Force` is their effect on a
 * snapshot.
 */
module ScriptHost {
  import opened Values
  import opened Registry

  const SettingsSubKey := "Software\\Microsoft\\Windows Script Host\\Settings"
  const EnabledName := "Enabled"

  function Setting(h: Hive): KeyPath {
    KeyPath(h, SettingsSubKey)
  }

  /** The setting as hive `h` holds it, if this process can see it there. */
  function Binding(s: Store, h: Hive): (b: Option<Entry>)
    ensures b.Some? <==> Visible(s, Setting(h), EnabledName)
  {
    if Visible(s, Setting(h), EnabledName) then Some(s.keys[Setting(h)][EnabledName]) else None
  }

  /** The data GetValue reports for the setting in hive `h` (the names are constants, so it cannot fail). */
  function ReadSetting(s: Store, h: Hive): (d: Option<Data>)
    ensures d == (if Binding(s, h).Some? then Some(Binding(s, h).value.data) else None)
  {
    GetValue(s, h, SettingsSubKey, EnabledName).value
  }

  /** Hive `h` holds the setting with data whose text is "1". */
  predicate HoldsOne(s: Store, h: Hive) {
    Binding(s, h).Some? && IsOne(Binding(s, h).value.data)
  }

  /** Hive `h` holds the setting as a DWORD. */
  predicate HoldsDword(s: Store, h: Hive) {
    Binding(s, h).Some? && Binding(s, h).value.kind == DWord
  }

  /** True when either hive lists the setting among its value names. */
  function AnyValueExists(s: Store): (r: bool)
    ensures r <==> Binding(s, LocalMachine).Some? || Binding(s, CurrentUser).Some?
  {
    var localMachineValueNames := GetValueNames(s, LocalMachine, SettingsSubKey).value;
    var currentUserValueNames := GetValueNames(s, CurrentUser, SettingsSubKey).value;
    EnabledName in localMachineValueNames || EnabledName in currentUserValueNames
  }

  /** The effective state: enabled when the setting is nowhere, otherwise enabled
    * when at least one hive holds a value whose text is "1". */
  function IsEnabled(s: Store): (r: bool)
    ensures !AnyValueExists(s) ==> r
    ensures AnyValueExists(s) ==>
      (r <==> HoldsOne(s, LocalMachine) || HoldsOne(s, CurrentUser))
  {
    if !AnyValueExists(s) then true
    else
      var localMachineEnabled := ReadSetting(s, LocalMachine);
      var currentUserEnabled := ReadSetting(s, CurrentUser);
      var localMachineOne := localMachineEnabled.Some? &&
        (StringifyIsOne(localMachineEnabled.value); Stringify(localMachineEnabled.value) == "1");
      var currentUserOne := currentUserEnabled.Some? &&
        (StringifyIsOne(currentUserEnabled.value); Stringify(currentUserEnabled.value) == "1");
      localMachineOne || currentUserOne
  }

  /** Both hives hold the setting, with the same data. */
  function IsConfigMatching(s: Store): (r: bool)
    ensures r <==> Binding(s, LocalMachine).Some? && Binding(s, CurrentUser).Some? &&
                   Binding(s, LocalMachine).value.data == Binding(s, CurrentUser).value.data
  {
    var localMachineEnabled := ReadSetting(s, LocalMachine);
    var currentUserEnabled := ReadSetting(s, CurrentUser);
    localMachineEnabled.Some? && currentUserEnabled.Some? && localMachineEnabled.value == currentUserEnabled.value
  }

  /** Both hives hold the setting as a DWORD. */
  function IsValueKindDword(s: Store): (r: bool)
    ensures r <==> HoldsDword(s, LocalMachine) && HoldsDword(s, CurrentUser)
  {
    var localMachineValueKind := GetValueKind(s, LocalMachine, SettingsSubKey, EnabledName).value;
    var currentUserValueKind := GetValueKind(s, CurrentUser, SettingsSubKey, EnabledName).value;
    localMachineValueKind == DWord && currentUserValueKind == DWord
  }

  /** Hive `h` has the settings key but will not let this process write it. */
  predicate Rejects(s: Store, h: Hive) {
    Setting(h) in s.keys && Refused(s, Setting(h))
  }

  /** Hive `h` has the settings key and lets this process write it. */
  predicate Accepts(s: Store, h: Hive) {
    Setting(h) in s.keys && !Refused(s, Setting(h))
  }

  /** The value table of hive `h`'s settings key with the setting overwritten by DWORD `v`. */
  function Overwritten(s: Store, h: Hive, v: Int32): map<string, Entry>
    requires Setting(h) in s.keys
  {
    s.keys[Setting(h)][EnabledName := Entry(DWord, Int(v))]
  }

  /** What Enable (v = 1) and Disable (v = 0) do: write DWORD v to LocalMachine,
    * then, unless that failed, to CurrentUser. */
  function Force(s: Store, v: Int32): (r: (Store, Outcome))
    ensures r.0.access == s.access && r.0.keys.Keys == s.keys.Keys
    ensures forall p :: p in s.keys && p != Setting(LocalMachine) && p != Setting(CurrentUser) ==>
      r.0.keys[p] == s.keys[p]
    // success needs every existing settings key to take the write
    ensures r.1.Pass? <==> !Rejects(s, LocalMachine) && !Rejects(s, CurrentUser)
    ensures r.1.Fail? ==> r.1.error == WriteFailed
    // LocalMachine goes first: when it refuses, CurrentUser is not touched
    ensures Rejects(s, LocalMachine) ==> r.0 == s
    ensures Accepts(s, LocalMachine) ==>
      r.0.keys[Setting(LocalMachine)] == Overwritten(s, LocalMachine, v)
    ensures Accepts(s, CurrentUser) && !Rejects(s, LocalMachine) ==>
      r.0.keys[Setting(CurrentUser)] == Overwritten(s, CurrentUser, v)
    ensures Rejects(s, CurrentUser) ==> r.0.keys[Setting(CurrentUser)] == s.keys[Setting(CurrentUser)]
  {
    var (s1, o1) := Write(s, LocalMachine, SettingsSubKey, EnabledName, Some(Int(v)), DWord);
    if o1.Fail? then (s1, o1)
    else Write(s1, CurrentUser, SettingsSubKey, EnabledName, Some(Int(v)), DWord)
  }

  /** Both settings keys exist and this process may read and write them. */
  predicate Healthy(s: Store) {
    forall h :: Accepts(s, h) && Readable(s, Setting(h))
  }

  /** On a healthy store Enable/Disable succeed and leave a clean configuration:
    * the setting present in both hives, both DWORD v, matching, and effective
    * state "enabled" exactly when v is 1. */
  lemma ForceSettles(s: Store, v: Int32)
    requires Healthy(s)
    ensures var (s', o) := Force(s, v);
      o == Pass &&
      (forall h :: Binding(s', h) == Some(Entry(DWord, Int(v)))) &&
      AnyValueExists(s') && IsValueKindDword(s') && IsConfigMatching(s') &&
      IsEnabled(s') == (v == 1)
  {
    var s' := Force(s, v).0;
    assert Accepts(s, LocalMachine) && Readable(s, Setting(LocalMachine));
    assert Accepts(s, CurrentUser) && Readable(s, Setting(CurrentUser));
    assert Binding(s', LocalMachine) == Some(Entry(DWord, Int(v)));
    assert Binding(s', CurrentUser) == Some(Entry(DWord, Int(v)));
    forall h ensures Binding(s', h) == Some(Entry(DWord, Int(v))) {
      if h == LocalMachine { } else { }
    }
  }

  /** The last Enable/Disable wins: forcing v and then w leaves the store, and the
    * outcome, of forcing w alone. Enable twice equals Enable once; Enable then
    * Disable equals Disable. */
  lemma ForceOverrides(s: Store, v: Int32, w: Int32)
    ensures Force(Force(s, v).0, w) == Force(s, w)
  {
    var s1 := Force(s, v).0;
    var a := Force(s1, w);
    var b := Force(s, w);
    if !Rejects(s, LocalMachine) {
      assert Rejects(s1, LocalMachine) == Rejects(s, LocalMachine);
      assert Rejects(s1, CurrentUser) == Rejects(s, CurrentUser);
      forall p | p in a.0.keys ensures a.0.keys[p] == b.0.keys[p] {
        if p == Setting(LocalMachine) && Accepts(s, LocalMachine) {
          OverwriteForgets(s, LocalMachine, v);
          OverwriteTwice(s, s1, LocalMachine, w);
        } else if p == Setting(CurrentUser) && Accepts(s, CurrentUser) {
          OverwriteForgets(s, CurrentUser, v);
          OverwriteTwice(s, s1, CurrentUser, w);
        }
      }
      assert a.0.keys == b.0.keys;
    }
  }

  /** Overwriting the setting changes nothing but the setting. */
  lemma OverwriteForgets(s: Store, h: Hive, v: Int32)
    requires Setting(h) in s.keys
    ensures Overwritten(s, h, v) - {EnabledName} == s.keys[Setting(h)] - {EnabledName}
  {
  }

  /** Overwriting the setting again forgets what the earlier overwrite wrote. */
  lemma OverwriteTwice(s: Store, s1: Store, h: Hive, w: Int32)
    requires Setting(h) in s.keys && Setting(h) in s1.keys
    requires s1.keys[Setting(h)] - {EnabledName} == s.keys[Setting(h)] - {EnabledName}
    ensures Overwritten(s1, h, w) == Overwritten(s, h, w)
  {
    var m1, m := s1.keys[Setting(h)], s.keys[Setting(h)];
    forall n | n != EnabledName ensures (n in m1 <==> n in m) && (n in m ==> m1[n] == m[n]) {
      assert n in m1 <==> n in m1 - {EnabledName};
      assert n in m <==> n in m - {EnabledName};
    }
  }

  /** A failed Enable/Disable whose LocalMachine write went through and whose
    * CurrentUser write was refused leaves the hives disagreeing, which the
    * next IsConfigMatching reports, unless CurrentUser already held the value. */
  lemma PartialFailureMismatch(s: Store, v: Int32)
    requires Accepts(s, LocalMachine) && Readable(s, Setting(LocalMachine))
    requires Rejects(s, CurrentUser)
    requires Binding(s, CurrentUser).None? || Binding(s, CurrentUser).value.data != Int(v)
    ensures var (s', o) := Force(s, v);
      o == Fail(WriteFailed) &&
      Binding(s', LocalMachine) == Some(Entry(DWord, Int(v))) &&
      Binding(s', CurrentUser) == Binding(s, CurrentUser) &&
      !IsConfigMatching(s')
  {
  }

  /** Neither settings key exists: Enable and Disable succeed without writing
    * anything, so the store stays unconfigured and keeps reading as enabled. */
  lemma ForceWithoutKeys(s: Store, v: Int32)
    requires Setting(LocalMachine) !in s.keys && Setting(CurrentUser) !in s.keys
    ensures Force(s, v) == (s, Pass)
    ensures !AnyValueExists(Force(s, v).0) && IsEnabled(Force(s, v).0)
  {
  }

  /** Settings that are present and both 0 read as disabled; a single hive
    * holding 1 reads as enabled whatever the other holds. */
  lemma EnabledIsOr(s: Store, h: Hive)
    ensures Binding(s, h).Some? && IsOne(Binding(s, h).value.data) ==> IsEnabled(s)
    ensures AnyValueExists(s) && (forall h' :: Binding(s, h').None? || Binding(s, h').value.data == Int(0))
      ==> !IsEnabled(s)
  {
  }

  /** A boxed registry value, as GetValue hands it out. */
  class Boxed {
    const data: Data

    constructor(data: Data)
      ensures this.data == data
    {
      this.data := data;
    }
  }

  class ScriptHostService {
    const registry: RegistryService
    /** The process-wide `String.Empty` instance: the registry API hands out this
      * one object for every empty string it reads. */
    const stringEmpty: Boxed

    constructor(registry: RegistryService)
      ensures this.registry == registry && stringEmpty.data == Str("")
    {
      this.registry := registry;
      stringEmpty := new Boxed(Str(""));
    }

    /** Writes DWORD 1 to LocalMachine, then to CurrentUser; the first error stops it. */
    method Enable() returns (r: Outcome)
      modifies registry
      ensures (registry.Snapshot(), r) == Force(old(registry.Snapshot()), 1)
    {
      r := registry.SetValue(LocalMachine, SettingsSubKey, EnabledName, Some(Int(1)), DWord);
      if r.Fail? {
        return;
      }
      r := registry.SetValue(CurrentUser, SettingsSubKey, EnabledName, Some(Int(1)), DWord);
    }

    /** Writes DWORD 0 to LocalMachine, then to CurrentUser; the first error stops it. */
    method Disable() returns (r: Outcome)
      modifies registry
      ensures (registry.Snapshot(), r) == Force(old(registry.Snapshot()), 0)
    {
      r := registry.SetValue(LocalMachine, SettingsSubKey, EnabledName, Some(Int(0)), DWord);
      if r.Fail? {
        return;
      }
      r := registry.SetValue(CurrentUser, SettingsSubKey, EnabledName, Some(Int(0)), DWord);
    }

    /** The match check as the C# code compares: the two values are boxed by
      * separate reads and compared by reference. Each read boxes a new object,
      * except that an empty string is the shared `String.Empty`, so the only
      * match is two empty strings. */
    method IsConfigMatchingAsWritten() returns (r: bool)
      ensures r <==> ReadSetting(registry.Snapshot(), LocalMachine) == Some(Str("")) &&
                     ReadSetting(registry.Snapshot(), CurrentUser) == Some(Str(""))
    {
      var localMachineEnabled: Boxed? := null;
      var currentUserEnabled: Boxed? := null;
      var lm := ReadSetting(registry.Snapshot(), LocalMachine);
      if lm == Some(Str("")) {
        localMachineEnabled := stringEmpty;
      } else if lm.Some? {
        localMachineEnabled := new Boxed(lm.value);
      }
      var cu := ReadSetting(registry.Snapshot(), CurrentUser);
      if cu == Some(Str("")) {
        currentUserEnabled := stringEmpty;
      } else if cu.Some? {
        currentUserEnabled := new Boxed(cu.value);
      }
      r := localMachineEnabled != null && currentUserEnabled != null && localMachineEnabled == currentUserEnabled;
    }
  }

  /** Where the reference comparison and the intended value comparison part:
    * a store whose two hives both hold DWORD 1 matches by value but not by
    * reference. */
  lemma MatchingByValue(s: Store)
    requires Healthy(s)
    requires s.keys[Setting(LocalMachine)] == map[EnabledName := Entry(DWord, Int(1))]
    requires s.keys[Setting(CurrentUser)] == map[EnabledName := Entry(DWord, Int(1))]
    ensures IsConfigMatching(s) && IsValueKindDword(s) && IsEnabled(s)
    // while the reference comparison, which only matches two empty strings, does not
    ensures ReadSetting(s, LocalMachine) != Some(Str(""))
  {
  }
}
