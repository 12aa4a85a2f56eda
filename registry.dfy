/** The conversion mode kept in the user's registry key: initialising the key, reading,
    writing and toggling the mode. The key is a store of named string values that may
    be missing altogether. */
module ModeRegistry {
  import opened Wrappers

  const RegistryPath: string := "Software\\CreoDent Prosthetics"
  const ModeKey: string := "mode"
  const DefaultMode: string := "0"

  /** The values under the key; None when the key does not exist. */
  type Key = Option<map<string, string>>

  function Values(k: Key): map<string, string>
  {
    if k.None? then map[] else k.value
  }

  predicate IsModeValue(mode: string)
  {
    mode == "0" || mode == "1"
  }

  function Opposite(mode: string): string
  {
    if mode == "0" then "1" else "0"
  }

  /** Whether a mode value is stored. */
  predicate HasMode(k: Key)
  {
    k.Some? && ModeKey in k.value
  }

  // ---------------------------------------------------------------- the store's transitions

  /** `initialize_registry`: the key is created if missing and '0' is written only
      when no mode value is stored. */
  function Initialized(k: Key): (r: Key)
    ensures HasMode(r)
    ensures HasMode(k) ==> r == k
    ensures !HasMode(k) ==> Values(r)[ModeKey] == DefaultMode
    ensures Values(r).Keys == Values(k).Keys + {ModeKey}
    ensures forall name :: name in Values(k) && name != ModeKey ==> Values(r)[name] == Values(k)[name]
  {
    if HasMode(k) then k else Some(Values(k)[ModeKey := DefaultMode])
  }

  /** The store after `mode` was written. */
  function Written(k: Key, mode: string): (r: Key)
    ensures HasMode(r) && Values(r)[ModeKey] == mode
    ensures Values(r).Keys == Values(k).Keys + {ModeKey}
    ensures forall name :: name in Values(k) && name != ModeKey ==> Values(r)[name] == Values(k)[name]
  {
    Some(Values(k)[ModeKey := mode])
  }

  function ReadFailure(value: string): string
  {
    "Failed to read mode from registry: Invalid mode value in registry: " + value
  }

  /** What `get_mode` returns: the stored mode, '0' when none is stored, and an error
      for any other stored value. The error raised for a bad value is caught by the
      function's own catch-all and wrapped a second time. */
  function ReadMode(k: Key): (r: Result<string, string>)
    ensures r.Ok? ==> IsModeValue(r.value)
    ensures r.Err? <==> HasMode(k) && !IsModeValue(k.value[ModeKey])
    ensures r.Err? ==> r.error == ReadFailure(k.value[ModeKey])
    ensures !HasMode(k) ==> r == Ok(DefaultMode)
    ensures HasMode(k) && IsModeValue(k.value[ModeKey]) ==> r == Ok(k.value[ModeKey])
  {
    if !HasMode(k) then Ok(DefaultMode)
    else if IsModeValue(k.value[ModeKey]) then Ok(k.value[ModeKey])
    else Err(ReadFailure(k.value[ModeKey]))
  }

  /** The store after `get_mode`: initialised when no mode was stored, else untouched. */
  function AfterRead(k: Key): (r: Key)
    ensures HasMode(r)
    ensures HasMode(k) ==> r == k
  {
    if HasMode(k) then k else Initialized(k)
  }

  function SetFailure(mode: string): string
  {
    "Invalid mode: " + mode + ". Must be '0' or '1'"
  }

  /** What `set_mode` leaves: a valid mode written, or the store untouched. */
  function SetOutcome(k: Key, mode: string): (r: (Result<(), string>, Key))
    ensures r.0.Ok? <==> IsModeValue(mode)
    ensures r.0.Err? ==> r.0.error == SetFailure(mode) && r.1 == k
    ensures r.0.Ok? ==> r.1 == Written(k, mode)
  {
    if IsModeValue(mode) then (Ok(()), Written(k, mode)) else (Err(SetFailure(mode)), k)
  }

  /** What `toggle_mode` returns and leaves: the opposite of the mode read, written. */
  function ToggleOutcome(k: Key): (r: (Result<string, string>, Key))
    ensures r.0.Ok? <==> ReadMode(k).Ok?
    ensures r.0.Err? ==> r.0 == Err(ReadMode(k).error) && r.1 == k
    ensures r.0.Ok? ==> IsModeValue(r.0.value) && r.0.value != ReadMode(k).value
    ensures r.0.Ok? ==> r.1 == Written(AfterRead(k), r.0.value)
  {
    var read := ReadMode(k);
    if read.Err? then (Err(read.error), AfterRead(k))
    else (Ok(Opposite(read.value)), Written(AfterRead(k), Opposite(read.value)))
  }

  // ---------------------------------------------------------------- properties

  /** Initialising twice is initialising once. */
  lemma InitializeIdempotent(k: Key)
    ensures Initialized(Initialized(k)) == Initialized(k)
  {
  }

  /** A mode that was written reads back, and reading it changes nothing. */
  lemma SetThenGet(k: Key, mode: string)
    requires IsModeValue(mode)
    ensures ReadMode(SetOutcome(k, mode).1) == Ok(mode)
    ensures AfterRead(SetOutcome(k, mode).1) == SetOutcome(k, mode).1
  {
  }

  /** Writing into a missing key is the same as initialising it first and writing
      then, which is what `set_mode`'s retry does. */
  lemma WriteAfterInitialize(mode: string)
    ensures Written(Initialized(None), mode) == Written(None, mode)
  {
    assert map[ModeKey := DefaultMode][ModeKey := mode] == map[ModeKey := mode];
  }

  /** After a toggle the store reads back the opposite mode. */
  lemma ToggleFlips(k: Key)
    requires ReadMode(k).Ok?
    ensures ReadMode(ToggleOutcome(k).1) == Ok(Opposite(ReadMode(k).value))
    ensures ToggleOutcome(k).0 == Ok(Opposite(ReadMode(k).value))
  {
  }

  /** Two toggles give back the mode read before them, and a key that held a valid
      mode is restored exactly. */
  lemma {:induction false} DoubleToggle(k: Key)
    requires ReadMode(k).Ok?
    ensures var once := ToggleOutcome(k).1;
            ToggleOutcome(once).0 == Ok(ReadMode(k).value)
    ensures HasMode(k) ==> ToggleOutcome(ToggleOutcome(k).1).1 == k
    ensures !HasMode(k) ==> ToggleOutcome(ToggleOutcome(k).1).1 == Written(k, DefaultMode)
  {
    var m := ReadMode(k).value;
    var once := ToggleOutcome(k).1;
    ToggleFlips(k);
    assert Opposite(Opposite(m)) == m;
    var twice := ToggleOutcome(once).1;
    assert twice == Written(once, m);
    if HasMode(k) {
      assert Values(k)[ModeKey := Opposite(m)][ModeKey := m] == Values(k);
    } else {
      assert Values(k)[ModeKey := DefaultMode][ModeKey := Opposite(m)][ModeKey := m] == Values(k)[ModeKey := DefaultMode];
    }
  }

  // ---------------------------------------------------------------- the registry

  class Registry {
    /** The key `RegistryPath` under the current user's hive. */
    var key: Key

    constructor(key: Key)
      ensures this.key == key
    {
      this.key := key;
    }

    /** `initialize_registry`. */
    method InitializeRegistry()
      modifies this
      ensures key == Initialized(old(key))
    {
      if key.None? {
        key := Some(map[]);
      }
      if ModeKey !in key.value {
        key := Some(key.value[ModeKey := DefaultMode]);
      }
    }

    /** `get_mode`. */
    method GetMode() returns (r: Result<string, string>)
      modifies this
      ensures r == ReadMode(old(key))
      ensures key == AfterRead(old(key))
    {
      if !HasMode(key) {
        InitializeRegistry();
        return Ok(DefaultMode);
      }
      var mode := key.value[ModeKey];
      if !IsModeValue(mode) {
        return Err(ReadFailure(mode));
      }
      r := Ok(mode);
    }

    /** `set_mode`: a bad mode is refused before anything is written; a missing key
        is initialised and the write retried. */
    method SetMode(mode: string) returns (r: Result<(), string>)
      modifies this
      ensures (r, key) == SetOutcome(old(key), mode)
      decreases if key.None? then 1 else 0
    {
      if !IsModeValue(mode) {
        return Err(SetFailure(mode));
      }
      if key.None? {
        InitializeRegistry();
        WriteAfterInitialize(mode);
        r := SetMode(mode);
        return;
      }
      key := Some(key.value[ModeKey := mode]);
      r := Ok(());
    }

    /** `toggle_mode`. The source's third branch, for a mode that is neither '0' nor
        '1', cannot be taken: `get_mode` returns only those two. */
    method ToggleMode() returns (r: Result<string, string>)
      modifies this
      ensures (r, key) == ToggleOutcome(old(key))
    {
      var current := GetMode();
      if current.Err? {
        return Err(current.error);
      }
      var next := if current.value == "0" then "1" else "0";
      var written := SetMode(next);
      r := Ok(next);
    }
  }
}
