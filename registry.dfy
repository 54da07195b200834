/**
 * An in-memory registry standing in for the Win32 registry behind
 * RegistryService: each hive holds subkeys, each subkey a table from value
 * name to (kind, data). Which keys this process may open for reading or for
 * writing is part of the store, so an access failure is a property of the
 * state rather than an exception thrown at random.
 *
 * The three reads are functions of a store snapshot; they never fail on a
 * missing key, a missing value or a denied key, returning the defaults the
 * service returns instead. Only the write, a method of RegistryService,
 * reports failures to its caller.
 */
module Registry {
  import opened Values

  datatype Hive = LocalMachine | CurrentUser

  /** The kinds of RegistryValueKind a value can be stored under, and Unknown,
    * which GetValueKind reports when it cannot see the value. */
  datatype Kind = Unknown | String | ExpandString | Binary | DWord | MultiString | QWord

  datatype Entry = Entry(kind: Kind, data: Data)

  datatype KeyPath = KeyPath(hive: Hive, subKey: string)

  /** The keys this process cannot open for reading, and those it cannot open for writing. */
  datatype Access = Access(unreadable: set<KeyPath>, unwritable: set<KeyPath>)

  /** The subkeys that exist, each with its value table, and the access rights to them. */
  datatype Store = Store(keys: map<KeyPath, map<string, Entry>>, access: Access)

  datatype Option<+T> = None | Some(value: T)

  /** ArgumentNullException names the offending parameter; every failure of the
    * write itself (access denied, security, I/O) is one WriteFailed. */
  datatype Error = ArgumentNull(param: string) | WriteFailed

  datatype Result<+T> = Success(value: T) | Failure(error: Error)

  datatype Outcome = Pass | Fail(error: Error)

  /** The key exists and this process can open it for reading. */
  predicate Readable(s: Store, p: KeyPath) {
    p in s.keys && p !in s.access.unreadable
  }

  /** Opening key `p` for writing fails. OpenSubKey(subKey, true) asks for read
    * and write access together, so a key that cannot be read cannot be written
    * either. */
  predicate Refused(s: Store, p: KeyPath) {
    p in s.access.unreadable || p in s.access.unwritable
  }

  /** The value `name` can be seen under key `p`. */
  predicate Visible(s: Store, p: KeyPath, name: string) {
    Readable(s, p) && name in s.keys[p]
  }

  /** The data of a value; null (None) when the key or value is missing or the key cannot be read. */
  function GetValue(s: Store, hive: Hive, subKey: string, valueName: string): (r: Result<Option<Data>>)
    ensures subKey == [] ==> r == Failure(ArgumentNull("subKey"))
    ensures subKey != [] && valueName == [] ==> r == Failure(ArgumentNull("valueName"))
    ensures r.Success? <==> subKey != [] && valueName != []
    ensures r.Success? ==> (r.value.Some? <==> Visible(s, KeyPath(hive, subKey), valueName))
    ensures r.Success? && r.value.Some? ==> r.value.value == s.keys[KeyPath(hive, subKey)][valueName].data
  {
    if subKey == [] then Failure(ArgumentNull("subKey"))
    else if valueName == [] then Failure(ArgumentNull("valueName"))
    else
      var p := KeyPath(hive, subKey);
      if !Readable(s, p) then Success(None)
      else if valueName in s.keys[p] then Success(Some(s.keys[p][valueName].data))
      else Success(None)
  }

  /** The kind of a value; Unknown when the key or value is missing or the key cannot be read. */
  function GetValueKind(s: Store, hive: Hive, subKey: string, valueName: string): (r: Result<Kind>)
    ensures subKey == [] ==> r == Failure(ArgumentNull("subKey"))
    ensures subKey != [] && valueName == [] ==> r == Failure(ArgumentNull("valueName"))
    ensures r.Success? <==> subKey != [] && valueName != []
    ensures r.Success? && !Visible(s, KeyPath(hive, subKey), valueName) ==> r.value == Unknown
    ensures r.Success? && Visible(s, KeyPath(hive, subKey), valueName) ==>
      r.value == s.keys[KeyPath(hive, subKey)][valueName].kind
  {
    if subKey == [] then Failure(ArgumentNull("subKey"))
    else if valueName == [] then Failure(ArgumentNull("valueName"))
    else
      var p := KeyPath(hive, subKey);
      if Readable(s, p) && valueName in s.keys[p] then Success(s.keys[p][valueName].kind)
      else Success(Unknown)
  }

  /** The names of the values under a key; empty when the key is missing or cannot be read. */
  function GetValueNames(s: Store, hive: Hive, subKey: string): (r: Result<set<string>>)
    ensures subKey == [] ==> r == Failure(ArgumentNull("subKey"))
    ensures r.Success? <==> subKey != []
    ensures r.Success? ==> forall name :: name in r.value <==> Visible(s, KeyPath(hive, subKey), name)
    ensures r.Success? && !Readable(s, KeyPath(hive, subKey)) ==> r.value == {}
  {
    if subKey == [] then Failure(ArgumentNull("subKey"))
    else
      var p := KeyPath(hive, subKey);
      if Readable(s, p) then Success(s.keys[p].Keys) else Success({})
  }

  /** The effect of SetValue: the new store and what the caller is told. */
  function Write(s: Store, hive: Hive, subKey: string, valueName: string, valueData: Option<Data>,
                 valueKind: Kind): (r: (Store, Outcome))
    // argument checks come before any access to the store
    ensures subKey == [] ==> r == (s, Fail(ArgumentNull("subKey")))
    ensures subKey != [] && valueName == [] ==> r == (s, Fail(ArgumentNull("valueName")))
    ensures subKey != [] && valueName != [] && valueData.None? ==> r == (s, Fail(ArgumentNull("valueData")))
    // a key that cannot be opened for reading and writing makes the write fail, and nothing changes
    ensures r.1 == Fail(WriteFailed) <==>
      subKey != [] && valueName != [] && valueData.Some? &&
      KeyPath(hive, subKey) in s.keys && Refused(s, KeyPath(hive, subKey))
    ensures r.1.Fail? ==> r.0 == s
    // every other write reports success, whether it stored the value or found no key
    ensures r.1.Pass? <==>
      subKey != [] && valueName != [] && valueData.Some? &&
      !(KeyPath(hive, subKey) in s.keys && Refused(s, KeyPath(hive, subKey)))
    // a missing key is not created: the write does nothing and reports success
    ensures KeyPath(hive, subKey) !in s.keys ==> r.0 == s
    ensures r.0.access == s.access && r.0.keys.Keys == s.keys.Keys
    // only the named value of the named key changes
    ensures forall p :: p in s.keys && p != KeyPath(hive, subKey) ==> r.0.keys[p] == s.keys[p]
    ensures r.1.Pass? && KeyPath(hive, subKey) in s.keys ==>
      r.0.keys[KeyPath(hive, subKey)] == s.keys[KeyPath(hive, subKey)][valueName := Entry(valueKind, valueData.value)]
  {
    if subKey == [] then (s, Fail(ArgumentNull("subKey")))
    else if valueName == [] then (s, Fail(ArgumentNull("valueName")))
    else if valueData.None? then (s, Fail(ArgumentNull("valueData")))
    else
      var p := KeyPath(hive, subKey);
      if p !in s.keys then (s, Pass)
      else if Refused(s, p) then (s, Fail(WriteFailed))
      else (s.(keys := s.keys[p := s.keys[p][valueName := Entry(valueKind, valueData.value)]]), Pass)
  }

  /** A successful write to a readable key is seen by the next GetValue and GetValueKind. */
  lemma ReadAfterWrite(s: Store, hive: Hive, subKey: string, valueName: string, d: Data, k: Kind)
    requires subKey != [] && valueName != []
    requires Readable(s, KeyPath(hive, subKey))
    requires Write(s, hive, subKey, valueName, Some(d), k).1.Pass?
    ensures var s' := Write(s, hive, subKey, valueName, Some(d), k).0;
      GetValue(s', hive, subKey, valueName) == Success(Some(d)) &&
      GetValueKind(s', hive, subKey, valueName) == Success(k) &&
      GetValueNames(s', hive, subKey) == Success(GetValueNames(s, hive, subKey).value + {valueName})
  {
    var p := KeyPath(hive, subKey);
    var s' := Write(s, hive, subKey, valueName, Some(d), k).0;
    assert s'.keys[p].Keys == s.keys[p].Keys + {valueName};
  }

  /** A write leaves every other value, in its own key and in every other key and hive, as it was. */
  lemma WriteLeavesOthers(s: Store, hive: Hive, subKey: string, valueName: string, d: Option<Data>, k: Kind,
                          hive': Hive, subKey': string, name': string)
    requires subKey' != [] && name' != []
    requires KeyPath(hive', subKey') != KeyPath(hive, subKey) || name' != valueName
    ensures var s' := Write(s, hive, subKey, valueName, d, k).0;
      GetValue(s', hive', subKey', name') == GetValue(s, hive', subKey', name') &&
      GetValueKind(s', hive', subKey', name') == GetValueKind(s, hive', subKey', name')
  {
  }

  /** The registry service: the live store. Reads are the functions above applied to `Snapshot()`. */
  class RegistryService {
    var keys: map<KeyPath, map<string, Entry>>
    const access: Access

    constructor(keys: map<KeyPath, map<string, Entry>>, access: Access)
      ensures Snapshot() == Store(keys, access)
    {
      this.keys := keys;
      this.access := access;
    }

    function Snapshot(): Store
      reads this
    {
      Store(keys, access)
    }

    /** Stores (valueKind, valueData) under valueName in an existing key; a missing
      * key is left alone; errors reach the caller. */
    method SetValue(hive: Hive, subKey: string, valueName: string, valueData: Option<Data>, valueKind: Kind)
      returns (r: Outcome)
      modifies this
      ensures (Snapshot(), r) == Write(old(Snapshot()), hive, subKey, valueName, valueData, valueKind)
    {
      if subKey == [] {
        return Fail(ArgumentNull("subKey"));
      }
      if valueName == [] {
        return Fail(ArgumentNull("valueName"));
      }
      if valueData.None? {
        return Fail(ArgumentNull("valueData"));
      }
      var p := KeyPath(hive, subKey);
      if p in keys {
        if p in access.unreadable || p in access.unwritable {
          return Fail(WriteFailed);
        }
        keys := keys[p := keys[p][valueName := Entry(valueKind, valueData.value)]];
      }
      r := Pass;
    }
  }
}
