# ScriptHostToggle: the Windows Script Host "Enabled" reconciler

ScriptHostToggle switches Windows Script Host on and off. It does this with one
registry value, `Enabled`, under `Software\Microsoft\Windows Script Host\Settings`.
That value is kept in two hives, LocalMachine and CurrentUser. This project models
three parts of the program in Dafny:

- `RegistryService`, the registry access layer;
- `ScriptHostService`, which reads the two copies of the setting and writes both;
- the decision logic of the main window, `Form1`.

The Win32 registry is replaced by an in-memory store (`Registry.Store`):

- a map from key path (hive plus subkey) to the value table of each existing subkey;
- each value table maps a value name to a kind and data (`Registry.Entry`);
- the store also holds the set of keys this process cannot open for reading and the
  set it cannot open for writing.
  A write opens its key for reading and writing together, so it fails on a key in
  either set.

Data is one of the .NET types the registry API returns: `Int32`, `Int64`, `string`,
`byte[]` or `string[]` (`Values.Data`). `Values.Stringify` stands in for
`object.ToString()`. It prints numbers in decimal; the decimal formatting `Decimal` is
proved injective through a parser (`Values.DecimalRoundTrip`).

Files:

- `values.dfy` — the data and `Stringify`.
- `registry.dfy` — the store, the three reads, `Write`, and the `RegistryService` class
  whose `SetValue` method is proved against `Write`.
- `script_host.dfy` — the four queries, `Force` (the effect of Enable/Disable), and the
  `ScriptHostService` class.
- `form.dfy` — the startup check, the toggle, the status text, and the `Form1` class.

Reads never fail on a missing key, a missing value or a denied key. They return
null (`None`), `Unknown` or an empty name set. They fail only on an empty subkey or
value name (`ArgumentNull`). Writes report `ArgumentNull` or `WriteFailed`.
A write to a subkey that does not exist does nothing and reports success.

The queries are functions of a store snapshot (`RegistryService.Snapshot()`), because
the source re-reads the registry on every call. The classes hold the mutable state:
the registry's key map, the service's registry, and the form's status text.

`Form1_Load` runs the kind check and the match check one after the other, and the
match check reads the store again after the first repair; `Form.StartupBothRepairs`
shows both repairs firing.

## Model

| member | source | states |
|---|---|---|
| Values.Stringify | ScriptHost/Services/ScriptHostService.cs:64-78 | `ToString()` of the boxed value: a string is itself; a number prints as a decimal that parses back to the number |
| Values.DecimalRoundTrip | ScriptHost/Services/ScriptHostService.cs:66 | parsing the decimal text of any integer gives that integer back |
| Values.DecimalInjective | ScriptHost/Services/ScriptHostService.cs:66 | two integers have the same text iff they are equal |
| Values.StringifyIsOne | ScriptHost/Services/ScriptHostService.cs:64-78 | a value's text is "1" exactly when it is the DWORD 1, the QWORD 1 or the string "1" |
| Registry.GetValue | ScriptHost/Services/RegistryService.cs:33-66 | empty subKey or valueName gives ArgumentNull, checked before the store; otherwise never fails; null unless the key exists, is readable and holds the value, in which case it is the stored data |
| Registry.GetValueKind | ScriptHost/Services/RegistryService.cs:121-160 | ArgumentNull on empty names; Unknown when the key or value is missing or unreadable; otherwise the stored kind |
| Registry.GetValueNames | ScriptHost/Services/RegistryService.cs:168-202 | ArgumentNull on an empty subKey, and success on any other; exactly the names visible under the key, empty when the key is missing or unreadable |
| Registry.Write | ScriptHost/Services/RegistryService.cs:76-112 | argument errors (including null data) change nothing; an existing key that cannot be opened for writing (unwritable, or unreadable, since the write opens it for reading and writing) fails with WriteFailed and changes nothing; every other write reports success; a missing key is not created and nothing changes; otherwise only the named value of the named key becomes (kind, data) |
| Registry.ReadAfterWrite | ScriptHost/Services/RegistryService.cs:87-92 | after a successful write to a readable key, GetValue, GetValueKind and GetValueNames report the written value |
| Registry.WriteLeavesOthers | ScriptHost/Services/RegistryService.cs:87-92 | a write leaves every other value name, key and hive reading as before |
| Registry.RegistryService.SetValue | ScriptHost/Services/RegistryService.cs:76-112 | the new store and the outcome are those of `Write` on the old store |
| ScriptHost.AnyValueExists | ScriptHost/Services/ScriptHostService.cs:135-144 | true iff at least one hive shows the setting |
| ScriptHost.IsEnabled | ScriptHost/Services/ScriptHostService.cs:49-81 | true when no hive shows the setting; otherwise true iff at least one hive holds 1 or "1" (an OR across hives) |
| ScriptHost.IsConfigMatching | ScriptHost/Services/ScriptHostService.cs:87-106 | true iff both hives show the setting with equal data; false when either is absent |
| ScriptHost.IsValueKindDword | ScriptHost/Services/ScriptHostService.cs:112-129 | true iff both hives show the setting as a DWORD; an absent value (Unknown) fails |
| ScriptHost.Force | ScriptHost/Services/ScriptHostService.cs:29-43 | DWORD v is written to every existing settings key that accepts it, LocalMachine first; success iff no existing settings key refuses; when LocalMachine refuses, nothing changes; a refused CurrentUser keeps its value; other keys are untouched |
| ScriptHost.ForceSettles | ScriptHost/Services/ScriptHostService.cs:29-43 | on a store whose two settings keys exist and are readable and writable, Enable/Disable succeed and leave both hives holding DWORD v, kinds valid, matching, and enabled iff v is 1 |
| ScriptHost.ForceOverrides | ScriptHost/Services/ScriptHostService.cs:29-43 | forcing v then w equals forcing w alone, on any store: Enable is idempotent and Enable-then-Disable equals Disable |
| ScriptHost.PartialFailureMismatch | ScriptHost/Services/ScriptHostService.cs:31-32 | LocalMachine written, CurrentUser refused: the result is WriteFailed, LocalMachine holds v, CurrentUser keeps its old value, and, when CurrentUser did not already hold v, the hives no longer match |
| ScriptHost.ForceWithoutKeys | ScriptHost/Services/RegistryService.cs:87-92 | with neither settings key present, Enable/Disable succeed without writing, and the store stays unconfigured and enabled |
| ScriptHost.EnabledIsOr | ScriptHost/Services/ScriptHostService.cs:51-80 | one hive holding 1 makes the state enabled; a configured store whose present values are all DWORD 0 is disabled |
| ScriptHost.ScriptHostService.Enable | ScriptHost/Services/ScriptHostService.cs:29-33 | the new store and outcome are `Force(old store, 1)` |
| ScriptHost.ScriptHostService.Disable | ScriptHost/Services/ScriptHostService.cs:39-43 | the new store and outcome are `Force(old store, 0)` |
| ScriptHost.ScriptHostService.IsConfigMatchingAsWritten | ScriptHost/Services/ScriptHostService.cs:97-103 | comparing the two boxed values by reference matches only when both hives hold the empty string (the shared `String.Empty`); each other value is a new box |
| ScriptHost.MatchingByValue | ScriptHost/Services/ScriptHostService.cs:84-103 | a store whose hives both hold DWORD 1 matches by value, has valid kinds, and is enabled, while the reference comparison does not match it |
| Form.StatusText | ScriptHost/Form1.cs:71-73 | the label reads "Enabled" iff the state is enabled, and "Disabled" iff it is not |
| Form.StartupCheck | ScriptHost/Form1.cs:18-47 | unconfigured: no write; a clean configuration is left alone; whenever a repair is needed the resulting store is the one Disable leaves and the run ends iff that Disable fails; a wrong kind is repaired first, and then either the corrupt notice is shown or the run ends, never both; a run that ends shows no notice; right kinds with disagreeing hives give one mismatch notice or an exit; after a successful corrupt repair the match check runs again on the repaired store, so a mismatch notice follows exactly when the repaired hives disagree; at most two repairs |
| Form.StartupRepairsHealthyStore | ScriptHost/Form1.cs:22-37 | on a store whose settings keys are readable and writable, startup does not exit, repairs at most once, leaves matching DWORD values, and reads as disabled after a repair |
| Form.StartupExitsWhenLocalMachineRefuses | ScriptHost/Form1.cs:41-46 | when a repair is needed and LocalMachine refuses, the run ends with nothing written and no notice |
| Form.StartupBothRepairs | ScriptHost/Form1.cs:24-36 | the two checks are sequential: a string "1" in LocalMachine with no CurrentUser key triggers both repairs and ends disabled |
| Form.EmptyStringsAreRepaired | ScriptHost/Form1.cs:22-27 | two empty-string settings, the only reference match, are not DWORDs, so startup repairs them with Disable and shows the corrupt notice unless the run ends |
| Form.Toggle | ScriptHost/Form1.cs:51-58 | Disable when the state is enabled, Enable otherwise |
| Form.ToggleFlips | ScriptHost/Form1.cs:51-58 | on a store whose settings keys are readable and writable, the toggle succeeds, flips the effective state and leaves a clean configuration |
| Form.ToggleFromUnconfigured | ScriptHost/Form1.cs:51-58 | from an unconfigured store the toggle disables; with both keys present it then reads disabled; with neither key it still reads enabled |
| Form.Form1.ToggleInterfaceStatus | ScriptHost/Form1.cs:69-74 | the label text is the status text of the current effective state |
| Form.Form1.Load | ScriptHost/Form1.cs:18-47 | store, notices and exit are those of `StartupCheck` on the old store; the label is set only when the run did not end |
| Form.Form1.ToggleButtonClick | ScriptHost/Form1.cs:49-61 | store and outcome are those of `Toggle` on the old store; the label is updated only when the write succeeded |

## Left out

- Win32 access (`RegistryKey.OpenBaseKey`, `OpenSubKey`) and the registry view chosen by
  `GetCurrentRegistryView` (RegistryService.cs:208-211) are foreign calls. The in-memory
  store replaces them, and the 32/64-bit view is not modelled.
- `Debug.WriteLine` logging has no behavioural effect and is not modelled.
- The exception types (`UnauthorizedAccessException`, `SecurityException`, `IOException`
  and others) are not distinguished. A read that fails is a key in the store's unreadable
  set. A write that fails is one `WriteFailed`, raised by an existing key in the
  unwritable or the unreadable set (`Registry.Refused`).
- Registry.Write: the conversion of data to the requested kind done by the Win32 `SetValue`
  is not modelled, nor the error it raises for a mismatch. The store keeps the pair as
  given. `RegistryValueKind.None`, and kind inference for `Unknown`, are left out.
- Registry.GetValueNames: returns the names as a set. The order of the Win32 listing is not
  modelled; the source only asks whether it contains "Enabled".
- ScriptHost.IsConfigMatching: uses value equality on the data, not the reference equality
  the code performs (see Findings).
- Form.StartupCheck: its "a clean configuration is left alone" holds with the value comparison
  only. With the reference comparison as written, `Form1_Load` disables every configured store
  on each start: two empty strings pass the reference comparison, but they are not DWORDs, so
  the kind check has already disabled them.
- Registry.GetValue: value names are looked up case-sensitively, while the Win32 registry
  matches them ignoring case; a value stored as "ENABLED" is a different name here. The same
  holds for Registry.GetValueKind and Registry.Write, which would update the existing value
  rather than add a second one.
- ScriptHost.AnyValueExists: the source's `List.Contains` is case-sensitive while the Win32
  reads behind the other three queries are not. On a store holding only "ENABLED" = DWORD 1 the
  source reports the setting absent but of DWORD kind (and matching under the value comparison);
  the model, whose lookups are all case-sensitive, reports it absent, not DWORD and not matching.
- Registry.GetValue: REG_EXPAND_SZ data is returned as stored; the expansion of environment
  variables that the Win32 `GetValue` performs is not modelled.
- ScriptHostService builds its own `RegistryService` in the source. Here it is passed to the
  constructor, so the store can be any state.
- Other processes may change the registry between calls. This is not a concurrency model:
  each query and each handler starts from whatever store it is given.
- Form1 UI: the `MessageBox` dialogs (kept only as the returned repair notices and the exit
  flag), label colours, the profile link's `Process.Start`, `InitializeComponent`, and
  `Environment.Exit` as a process action (kept only as the exit flag).
- An exception escaping `ScriptHostToggleButton_Click` goes to the UI framework's handler.
  The model only reports the failure and leaves the label unchanged.

## Findings

| source | as written | input that shows it | evidently intended | confidence | as-written member | corrected member |
|---|---|---|---|---|---|---|
| ScriptHost/Services/ScriptHostService.cs:99 | `localMachineEnabled == currentUserEnabled` compares two `object` references; each `GetValue` returns a newly boxed value, so the test is false whenever both values are present, except when both are the empty string (the shared `String.Empty`) | both hives hold DWORD 1: `IsConfigMatching` returns false, and `Form1_Load` disables this clean configuration on every start | compare the values (the method's summary: a match between the two settings) | high; not executed | ScriptHost.ScriptHostService.IsConfigMatchingAsWritten | ScriptHost.IsConfigMatching (with ScriptHost.MatchingByValue) |
