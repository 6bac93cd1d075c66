/** Moving settings out of the flag file: two dictionaries, two atomic writes, and a crash anywhere between. */
module SettingsMigration {
  import opened Optional

  /** A JSON value, of which a lookup sees the integer, if it reads as one. */
  datatype Json = Json(integer: Option<int>, text: string)

  /** A property: the key its name normalises to, the form in which the name is typed, and the value. */
  datatype Property = Property(key: string, form: string, value: Json)

  /** A file that is missing or unreadable, was typed by hand, or was saved from a dictionary. */
  datatype File = Absent | Typed(properties: seq<Property>) | Saved(entries: map<string, Json>)

  datatype Disk = Disk(flags: File, settings: File)

  // ----- names in a saved file -----

  const SUFFIX := ".txt"

  predicate Suffixed(name: string) {
    |name| >= |SUFFIX| && name[|name| - |SUFFIX|..] == SUFFIX
  }

  /** Reading normalises the names of a saved file once more, which drops a suffix that is still there. */
  function Bare(name: string): string {
    if Suffixed(name) then name[..|name| - |SUFFIX|] else name
  }

  lemma BareIs(name: string, key: string)
    ensures Bare(name) == key <==> name == key + SUFFIX || (name == key && !Suffixed(key))
  {
    assert (key + SUFFIX)[|key + SUFFIX| - |SUFFIX|..] == SUFFIX;
    assert (key + SUFFIX)[..|key + SUFFIX| - |SUFFIX|] == key;
    if Suffixed(name) {
      assert name == name[..|name| - |SUFFIX|] + SUFFIX;
    }
  }

  function KeysBack(names: set<string>): (r: set<string>)
    ensures forall key {:trigger key in r} :: key in r <==> key + SUFFIX in names || (key in names && !Suffixed(key))
  {
    KeysBackAre(names);
    set name | name in names :: Bare(name)
  }

  lemma KeysBackAre(names: set<string>)
    ensures var back := set name | name in names :: Bare(name);
      forall key {:trigger key in back} :: key in back <==> key + SUFFIX in names || (key in names && !Suffixed(key))
  {
    var back := set name | name in names :: Bare(name);
    forall key ensures key in back <==> key + SUFFIX in names || (key in names && !Suffixed(key)) {
      BareIs(key + SUFFIX, key);
      BareIs(key, key);
      if name :| name in names && Bare(name) == key {
        BareIs(name, key);
      }
    }
  }

  /** The dictionary that a saved file gives back: of a name and the name with a suffix, the second comes last. */
  function ReadBack(entries: map<string, Json>): (r: map<string, Json>)
    ensures r.Keys == KeysBack(entries.Keys)
  {
    map key | key in KeysBack(entries.Keys) :: if key + SUFFIX in entries then entries[key + SUFFIX] else entries[key]
  }

  predicate Tidy(entries: map<string, Json>) {
    forall name :: name in entries ==> !Suffixed(name)
  }

  lemma SuffixedIs(key: string)
    ensures Suffixed(key + SUFFIX)
  {
    BareIs(key + SUFFIX, key);
    assert (key + SUFFIX)[|key + SUFFIX| - |SUFFIX|..] == SUFFIX;
  }

  lemma TidyReadsBack(entries: map<string, Json>)
    requires Tidy(entries)
    ensures ReadBack(entries) == entries
  {
    forall key ensures key + SUFFIX !in entries {
      SuffixedIs(key);
    }
  }

  /** A suffixed name is not read back as it is written, or a longer one is not. */
  lemma {:induction false} SuffixLost(entries: map<string, Json>, name: string) returns (lost: string)
    requires name in entries && Suffixed(name)
    ensures lost in entries && Suffixed(lost) && lost !in ReadBack(entries)
    decreases Longer(entries, name)
  {
    if name in ReadBack(entries) {
      SuffixedIs(name);
      assert Longer(entries, name + SUFFIX) < Longer(entries, name) by {
        assert name + SUFFIX in Longer(entries, name);
      }
      lost := SuffixLost(entries, name + SUFFIX);
    } else {
      lost := name;
    }
  }

  ghost function Longer(entries: map<string, Json>, name: string): set<string> {
    set other | other in entries && |other| > |name|
  }

  // ----- reading -----

  /** The last spelling of a key wins. */
  function Entries(properties: seq<Property>): map<string, Json> {
    if properties == [] then map[]
    else
      var last := properties[|properties| - 1];
      Entries(properties[..|properties| - 1])[last.key := last.value]
  }

  /** One name typed twice in the same form, which the dictionary reader refuses. */
  predicate Repeats(properties: seq<Property>) {
    exists i, j :: 0 <= i < j < |properties|
      && properties[i].key == properties[j].key && properties[i].form == properties[j].form
  }

  ghost predicate SameName(a: Property, b: Property) {
    a.key == b.key && a.form == b.form
  }

  /** Any two properties at different places, in whatever order. */
  lemma RepeatsMeans(properties: seq<Property>)
    ensures Repeats(properties) <==>
      exists i, j :: 0 <= i < |properties| && 0 <= j < |properties| && i != j && SameName(properties[i], properties[j])
  {
  }

  /** What a file holds. */
  function Held(file: File): map<string, Json> {
    match file
    case Absent => map[]
    case Typed(properties) => Entries(properties)
    case Saved(entries) => ReadBack(entries)
  }

  predicate Refused(file: File) {
    file.Typed? && Repeats(file.properties)
  }

  /** What the dictionary reader makes of it: nothing, when a name is repeated. */
  function ReadRaw(file: File): map<string, Json> {
    if Refused(file) then map[] else Held(file)
  }

  /** The first spelling that reads as an integer. */
  function FirstInteger(properties: seq<Property>, key: string): Option<int> {
    if properties == [] then None
    else if properties[0].key == key && properties[0].value.integer.Some? then properties[0].value.integer
    else FirstInteger(properties[1..], key)
  }

  function EntryInteger(entries: map<string, Json>, key: string): Option<int> {
    if key in entries then entries[key].integer else None
  }

  /** The name itself comes before the name with a suffix. */
  function SavedInteger(entries: map<string, Json>, key: string): Option<int> {
    if !Suffixed(key) && EntryInteger(entries, key).Some? then EntryInteger(entries, key)
    else EntryInteger(entries, key + SUFFIX)
  }

  function TryRead(file: File, key: string): Option<int> {
    match file
    case Absent => None
    case Typed(properties) => FirstInteger(properties, key)
    case Saved(entries) => SavedInteger(entries, key)
  }

  function Clamp(value: int, low: int, high: int): (r: int)
    requires low <= high
    ensures low <= r <= high
    ensures low <= value <= high ==> r == value
    ensures value <= low ==> r == low
    ensures high <= value ==> r == high
  {
    if value < low then low else if value > high then high else value
  }

  /** Settings first, then flags, then the default. */
  function Answer(setting: Option<int>, flag: Option<int>, default: int, low: int, high: int): int
    requires low <= high
  {
    if setting.Some? then Clamp(setting.value, low, high)
    else if flag.Some? then Clamp(flag.value, low, high)
    else default
  }

  function Lookup(disk: Disk, key: string, default: int, low: int, high: int): int
    requires low <= high
  {
    Answer(TryRead(disk.settings, key), TryRead(disk.flags, key), default, low, high)
  }

  // ----- migrating -----

  /** The settings with every migrated flag they lack. */
  function NewSettings(flags: map<string, Json>, settings: map<string, Json>, keys: seq<string>): map<string, Json> {
    map key | key in settings.Keys + flags.Keys && (key in settings || key in keys) ::
      if key in settings then settings[key] else flags[key]
  }

  function NewFlags(flags: map<string, Json>, keys: seq<string>): map<string, Json> {
    map key | key in flags && key !in keys :: flags[key]
  }

  /** The disk after the settings write, which happens only when some setting was missing. */
  function AfterFirst(disk: Disk, keys: seq<string>): Disk {
    var flags, settings := ReadRaw(disk.flags), ReadRaw(disk.settings);
    if NewSettings(flags, settings, keys) == settings then disk
    else disk.(settings := Saved(NewSettings(flags, settings, keys)))
  }

  /** The disk after both writes, the second of which happens only when some flag was migrated. */
  function AfterBoth(disk: Disk, keys: seq<string>): Disk {
    var flags := ReadRaw(disk.flags);
    if NewFlags(flags, keys) == flags then disk
    else AfterFirst(disk, keys).(flags := Saved(NewFlags(flags, keys)))
  }

  /** How far a run gets: nowhere, between the two writes, or to the end. */
  datatype Progress = BeforeWrites | BetweenWrites | Finished

  function Reached(disk: Disk, keys: seq<string>, progress: Progress): Disk {
    match progress
    case BeforeWrites => disk
    case BetweenWrites => AfterFirst(disk, keys)
    case Finished => AfterBoth(disk, keys)
  }

  /** Some migrated flag has no setting yet, so the settings are written. */
  predicate Missing(disk: Disk, keys: seq<string>) {
    exists key :: key in keys && key in ReadRaw(disk.flags) && key !in ReadRaw(disk.settings)
  }

  /** Some flag is migrated, so the flags are written. */
  predicate Migrating(disk: Disk, keys: seq<string>) {
    exists key :: key in keys && key in ReadRaw(disk.flags)
  }

  lemma NothingMissing(flags: map<string, Json>, settings: map<string, Json>, keys: seq<string>)
    ensures NewSettings(flags, settings, keys) == settings
       <==> forall key :: key in keys && key in flags ==> key in settings
  {
    if forall key :: key in keys && key in flags ==> key in settings {
      assert NewSettings(flags, settings, keys) == settings;
    } else {
      var key :| key in keys && key in flags && key !in settings;
      assert key in NewSettings(flags, settings, keys);
    }
  }

  lemma NothingMigrated(flags: map<string, Json>, keys: seq<string>)
    ensures NewFlags(flags, keys) == flags <==> forall key :: key in keys ==> key !in flags
  {
    if forall key :: key in keys ==> key !in flags {
      assert NewFlags(flags, keys) == flags;
    } else {
      var key :| key in keys && key in flags;
      assert key !in NewFlags(flags, keys);
    }
  }

  /** The migrated keys are normalised names without a suffix. */
  predicate Plain(keys: seq<string>) {
    forall key :: key in keys ==> !Suffixed(key)
  }

  lemma WrittenWhen(disk: Disk, keys: seq<string>)
    ensures var settings := NewSettings(ReadRaw(disk.flags), ReadRaw(disk.settings), keys);
      AfterFirst(disk, keys) == if Missing(disk, keys) then disk.(settings := Saved(settings)) else disk
    ensures var flags := NewFlags(ReadRaw(disk.flags), keys);
      AfterBoth(disk, keys) ==
      if Migrating(disk, keys) then AfterFirst(disk, keys).(flags := Saved(flags)) else AfterFirst(disk, keys)
    ensures Missing(disk, keys) ==> Migrating(disk, keys)
  {
    NothingMissing(ReadRaw(disk.flags), ReadRaw(disk.settings), keys);
    NothingMigrated(ReadRaw(disk.flags), keys);
  }

  lemma FirstAgain(disk: Disk, keys: seq<string>)
    requires Plain(keys)
    ensures AfterFirst(AfterFirst(disk, keys), keys) == AfterFirst(disk, keys)
    ensures AfterFirst(disk, keys).flags == disk.flags
  {
    var flags, settings := ReadRaw(disk.flags), ReadRaw(disk.settings);
    var more := NewSettings(flags, settings, keys);
    if more != settings {
      NothingMissing(flags, ReadBack(more), keys);
    }
  }

  /** No flag is a migrated key behind a suffix, or no flag is migrated, so that the suffix stays. */
  predicate Settles(disk: Disk, keys: seq<string>) {
    Migrating(disk, keys) ==> forall key :: key in keys ==> key + SUFFIX !in ReadRaw(disk.flags)
  }

  /**
   Crash safety: from wherever a run was cut off between its writes, a complete run ends with the same two
   files; after its end this holds exactly when the flags are settled.
   */
  lemma RerunConverges(disk: Disk, keys: seq<string>, cut: Progress)
    requires Plain(keys)
    ensures AfterBoth(Reached(disk, keys, cut), keys) == AfterBoth(disk, keys)
       <==> cut != Finished || Settles(disk, keys)
  {
    FirstAgain(disk, keys);
    WrittenWhen(disk, keys);
    if cut == Finished {
      SecondRunIsIdle(disk, keys);
    } else {
      WrittenWhen(Reached(disk, keys, cut), keys);
    }
  }

  /** A second run changes nothing, exactly when the flags are settled. */
  lemma SecondRunIsIdle(disk: Disk, keys: seq<string>)
    requires Plain(keys)
    ensures AfterBoth(AfterBoth(disk, keys), keys) == AfterBoth(disk, keys) <==> Settles(disk, keys)
  {
    var once := AfterBoth(disk, keys);
    WrittenWhen(disk, keys);
    WrittenWhen(once, keys);
    MigratingAgain(disk, keys);
    if Migrating(once, keys) {
      var left := NewFlags(ReadRaw(disk.flags), keys);
      var key :| key in keys && key + SUFFIX in ReadRaw(disk.flags);
      SuffixedIs(key);
      var lost := SuffixLost(left, key + SUFFIX);
      assert once.flags == Saved(left) && lost !in NewFlags(ReadBack(left), keys);
    } else if !Migrating(disk, keys) {
      FirstAgain(disk, keys);
    }
  }

  lemma MigratingAgain(disk: Disk, keys: seq<string>)
    requires Plain(keys)
    ensures Migrating(AfterBoth(disk, keys), keys) <==> !Settles(disk, keys)
  {
    WrittenWhen(disk, keys);
    var flags := ReadRaw(disk.flags);
    if Migrating(disk, keys) {
      forall key | key in keys ensures key in ReadBack(NewFlags(flags, keys)) <==> key + SUFFIX in flags {
        SuffixedIs(key);
      }
    }
  }

  // ----- what the files hold after a migration -----

  function At(entries: map<string, Json>, key: string): Option<Json> {
    if key in entries then Some(entries[key]) else None
  }

  /** For every pair of files and every key: what both files hold after the migration, and where it comes from. */
  lemma EntriesAfter(disk: Disk, keys: seq<string>, key: string)
    requires Plain(keys)
    ensures var flags, settings := ReadRaw(disk.flags), ReadRaw(disk.settings);
      At(Held(AfterBoth(disk, keys).settings), key) ==
        if !Missing(disk, keys) then At(Held(disk.settings), key)
        else if key + SUFFIX in settings then Some(settings[key + SUFFIX])
        else if Suffixed(key) then None
        else if key !in settings && key in keys then At(flags, key)
        else At(settings, key)
    ensures var flags := ReadRaw(disk.flags);
      At(Held(AfterBoth(disk, keys).flags), key) ==
        if !Migrating(disk, keys) then At(Held(disk.flags), key)
        else if key + SUFFIX in flags then Some(flags[key + SUFFIX])
        else if Suffixed(key) || key in keys then None
        else At(flags, key)
  {
    WrittenWhen(disk, keys);
    SuffixedIs(key);
  }

  ghost predicate Keeps(before: map<string, Json>, after: map<string, Json>) {
    forall key :: key in before ==> At(after, key) == Some(before[key])
  }

  /** Writing a dictionary that includes another one keeps the other one exactly when that one is tidy. */
  lemma KeptWhenTidy(before: map<string, Json>, written: map<string, Json>)
    requires Keeps(before, written)
    requires forall name :: name in written && name !in before ==> !Suffixed(name)
    ensures Keeps(before, ReadBack(written)) <==> Tidy(before)
  {
    if Tidy(before) {
      TidyReadsBack(written);
    } else {
      var name :| name in before && Suffixed(name);
      var lost := SuffixLost(written, name);
      assert lost in before;
    }
  }

  /**
   Every setting stays as it is, exactly when the settings are not written, or hold no repeated name and no
   suffixed key. With a repeated name the file is overwritten by the migrated flags.
   */
  lemma SettingsKept(disk: Disk, keys: seq<string>)
    requires Plain(keys)
    ensures Keeps(Held(disk.settings), Held(AfterBoth(disk, keys).settings))
       <==> !Missing(disk, keys)
            || if Refused(disk.settings) then Keeps(Held(disk.settings), Moved(disk, keys))
               else Tidy(Held(disk.settings))
  {
    WrittenWhen(disk, keys);
    var written := NewSettings(ReadRaw(disk.flags), ReadRaw(disk.settings), keys);
    if Missing(disk, keys) {
      if Refused(disk.settings) {
        assert written == Moved(disk, keys);
        TidyReadsBack(written);
      } else {
        KeptWhenTidy(Held(disk.settings), written);
      }
    }
  }

  /** The migrated flags. */
  function Moved(disk: Disk, keys: seq<string>): map<string, Json> {
    map key | key in ReadRaw(disk.flags) && key in keys :: ReadRaw(disk.flags)[key]
  }

  /** Every flag that is not migrated stays as it is, exactly when the flags are not written or hold no suffixed key. */
  lemma FlagsKept(disk: Disk, keys: seq<string>)
    requires Plain(keys)
    ensures Keeps(Held(disk.flags) - Moved(disk, keys).Keys, Held(AfterBoth(disk, keys).flags))
       <==> !Migrating(disk, keys) || Tidy(Held(disk.flags))
  {
    WrittenWhen(disk, keys);
    var left := NewFlags(ReadRaw(disk.flags), keys);
    if Migrating(disk, keys) {
      assert Held(disk.flags) - Moved(disk, keys).Keys == left;
      KeptWhenTidy(left, left);
      assert forall name :: name in Moved(disk, keys) ==> !Suffixed(name);
    }
  }

  /** Every migrated flag arrives: its setting is the one there was, or else the flag. */
  lemma FlagsArrive(disk: Disk, keys: seq<string>, key: string)
    requires Plain(keys) && key in keys && key in ReadRaw(disk.flags)
    ensures var settings := ReadRaw(disk.settings);
      At(ReadRaw(AfterBoth(disk, keys).settings), key) == Some(
        if Missing(disk, keys) && key + SUFFIX in settings then settings[key + SUFFIX]
        else if key in settings then settings[key]
        else ReadRaw(disk.flags)[key])
  {
    WrittenWhen(disk, keys);
    SuffixedIs(key);
  }

  // ----- lookups across a migration -----

  /** What the settings say of a key after the migration, from the files before it. */
  function SettingAfter(disk: Disk, keys: seq<string>, key: string): Option<int> {
    var flags, settings := ReadRaw(disk.flags), ReadRaw(disk.settings);
    if !Missing(disk, keys) then TryRead(disk.settings, key)
    else if Suffixed(key) then EntryInteger(settings, key + SUFFIX)
    else if key in settings && settings[key].integer.Some? then settings[key].integer
    else if key !in settings && key in keys && EntryInteger(flags, key).Some? then flags[key].integer
    else EntryInteger(settings, key + SUFFIX)
  }

  /** What the flags say of it. */
  function FlagAfter(disk: Disk, keys: seq<string>, key: string): Option<int> {
    var flags := ReadRaw(disk.flags);
    if !Migrating(disk, keys) then TryRead(disk.flags, key)
    else if !Suffixed(key) && key !in keys && EntryInteger(flags, key).Some? then flags[key].integer
    else EntryInteger(flags, key + SUFFIX)
  }

  lemma SettingReadAfter(disk: Disk, keys: seq<string>, key: string)
    requires Plain(keys)
    ensures TryRead(AfterFirst(disk, keys).settings, key) == SettingAfter(disk, keys, key)
  {
    WrittenWhen(disk, keys);
    SuffixedIs(key);
  }

  lemma FlagReadAfter(disk: Disk, keys: seq<string>, key: string)
    requires Plain(keys)
    ensures TryRead(AfterBoth(disk, keys).flags, key) == FlagAfter(disk, keys, key)
  {
    WrittenWhen(disk, keys);
    SuffixedIs(key);
  }

  lemma ReadAfter(disk: Disk, keys: seq<string>, key: string)
    requires Plain(keys)
    ensures TryRead(AfterFirst(disk, keys).settings, key) == SettingAfter(disk, keys, key)
    ensures TryRead(AfterBoth(disk, keys).settings, key) == SettingAfter(disk, keys, key)
    ensures TryRead(AfterFirst(disk, keys).flags, key) == TryRead(disk.flags, key)
    ensures TryRead(AfterBoth(disk, keys).flags, key) == FlagAfter(disk, keys, key)
  {
    SettingReadAfter(disk, keys, key);
    FlagReadAfter(disk, keys, key);
    WrittenWhen(disk, keys);
  }

  /** For every pair of files: what a lookup answers between the two writes, and when that is the old answer. */
  lemma LookupBetweenWrites(disk: Disk, keys: seq<string>, key: string, default: int, low: int, high: int)
    requires low <= high && Plain(keys)
    ensures var setting, flag := TryRead(disk.settings, key), TryRead(disk.flags, key);
      var after := Answer(SettingAfter(disk, keys, key), flag, default, low, high);
      && Lookup(AfterFirst(disk, keys), key, default, low, high) == after
      && (Lookup(AfterFirst(disk, keys), key, default, low, high) == Lookup(disk, key, default, low, high)
          <==> !Missing(disk, keys) || after == Answer(setting, flag, default, low, high))
  {
    ReadAfter(disk, keys, key);
  }

  /** And the same after both writes. */
  lemma LookupAfterMigration(disk: Disk, keys: seq<string>, key: string, default: int, low: int, high: int)
    requires low <= high && Plain(keys)
    ensures var setting, flag := TryRead(disk.settings, key), TryRead(disk.flags, key);
      var after := Answer(SettingAfter(disk, keys, key), FlagAfter(disk, keys, key), default, low, high);
      && Lookup(AfterBoth(disk, keys), key, default, low, high) == after
      && (Lookup(AfterBoth(disk, keys), key, default, low, high) == Lookup(disk, key, default, low, high)
          <==> !Migrating(disk, keys) || after == Answer(setting, flag, default, low, high))
  {
    ReadAfter(disk, keys, key);
    WrittenWhen(disk, keys);
  }

  /** Lookup and dictionary agree on the key, which no suffixed name stands behind. */
  predicate Steady(file: File, key: string) {
    TryRead(file, key) == EntryInteger(ReadRaw(file), key) && key + SUFFIX !in ReadRaw(file)
  }

  /** A migrated key whose setting does not read as an integer, while its flag does and is not the default. */
  predicate Shadowed(disk: Disk, keys: seq<string>, key: string, default: int, low: int, high: int)
    requires low <= high
  {
    && key in keys && key in ReadRaw(disk.settings)
    && TryRead(disk.settings, key).None?
    && TryRead(disk.flags, key).Some? && Clamp(TryRead(disk.flags, key).value, low, high) != default
  }

  /**
   A steady key is answered as before between the writes, and after them too unless the settings hold it in
   an unreadable form: the readable flag behind it is dropped, and the lookup falls to the default.
   */
  lemma SteadyLookup(disk: Disk, keys: seq<string>, key: string, default: int, low: int, high: int)
    requires low <= high && Plain(keys) && !Suffixed(key)
    requires Steady(disk.settings, key) && Steady(disk.flags, key)
    ensures Lookup(AfterFirst(disk, keys), key, default, low, high) == Lookup(disk, key, default, low, high)
    ensures Lookup(AfterBoth(disk, keys), key, default, low, high) == Lookup(disk, key, default, low, high)
       <==> !Shadowed(disk, keys, key, default, low, high)
  {
    ReadAfter(disk, keys, key);
    if key in keys && key in ReadRaw(disk.flags) {
      assert Migrating(disk, keys);
    }
  }

  predicate SpelledOnce(properties: seq<Property>) {
    forall i, j :: 0 <= i < j < |properties| ==> properties[i].key != properties[j].key
  }

  lemma {:induction false} EntryOf(properties: seq<Property>, i: nat)
    requires SpelledOnce(properties) && i < |properties|
    ensures properties[i].key in Entries(properties) && Entries(properties)[properties[i].key] == properties[i].value
  {
    if i < |properties| - 1 {
      EntryOf(properties[..|properties| - 1], i);
    }
  }

  lemma {:induction false} NoEntryOf(properties: seq<Property>, key: string)
    requires forall i :: 0 <= i < |properties| ==> properties[i].key != key
    ensures key !in Entries(properties) && FirstInteger(properties, key) == None
  {
    if properties != [] {
      NoEntryOf(properties[..|properties| - 1], key);
      NoFirst(properties, key);
    }
  }

  lemma {:induction false} NoFirst(properties: seq<Property>, key: string)
    requires forall i :: 0 <= i < |properties| ==> properties[i].key != key || properties[i].value.integer.None?
    ensures FirstInteger(properties, key) == None
  {
    if properties != [] {
      NoFirst(properties[1..], key);
    }
  }

  lemma {:induction false} FirstAt(properties: seq<Property>, i: nat)
    requires SpelledOnce(properties) && i < |properties|
    ensures FirstInteger(properties, properties[i].key) == properties[i].value.integer
  {
    if i > 0 {
      FirstAt(properties[1..], i - 1);
    } else if properties[0].value.integer.None? {
      NoFirst(properties, properties[0].key);
    }
  }

  /** Lookup and dictionary agree on a file that spells every key once, and on a tidy saved file. */
  lemma SpelledOnceIsSteady(file: File, key: string)
    requires file.Typed? ==> SpelledOnce(file.properties)
    requires file.Saved? ==> Tidy(file.entries)
    ensures TryRead(file, key) == EntryInteger(ReadRaw(file), key)
  {
    if file.Typed? {
      if i :| 0 <= i < |file.properties| && file.properties[i].key == key {
        EntryOf(file.properties, i);
        FirstAt(file.properties, i);
      } else {
        NoEntryOf(file.properties, key);
      }
    } else if file.Saved? {
      TidyReadsBack(file.entries);
      SuffixedIs(key);
    }
  }

  // ----- the failing cases in the concrete -----

  lemma TwoEntries(a: Property, b: Property)
    requires a.form != b.form
    ensures ReadRaw(Typed([a, b])) == map[a.key := a.value][b.key := b.value]
  {
    assert [a, b][..1] == [a] && [a][..0] == [];
    assert Entries([a]) == map[a.key := a.value];
  }

  /** An unreadable setting hides a readable flag, and migration turns its 18 into the default 1. */
  lemma UnreadableSettingLosesFlag(key: string)
    requires !Suffixed(key)
    ensures var disk := Disk(Saved(map[key := Json(Some(18), "18")]), Saved(map[key := Json(None, "null")]));
      Lookup(disk, key, 1, 1, 20) == 18 && Lookup(AfterBoth(disk, [key]), key, 1, 1, 20) == 1
  {
    var disk := Disk(Saved(map[key := Json(Some(18), "18")]), Saved(map[key := Json(None, "null")]));
    SuffixedIs(key);
    LookupAfterMigration(disk, [key], key, 1, 1, 20);
    assert key in [key] && Migrating(disk, [key]);
  }

  /** Two spellings of one key: the lookup took the first, the migration keeps the last. */
  lemma RepeatedSpellingChanges(key: string)
    requires !Suffixed(key)
    ensures var five, nine := Property(key, "", Json(Some(5), "5")), Property(key, ".txt", Json(Some(9), "9"));
      var disk := Disk(Typed([five, nine]), Absent);
      Lookup(disk, key, 1, 1, 20) == 5 && Lookup(AfterBoth(disk, [key]), key, 1, 1, 20) == 9
  {
    var five, nine := Property(key, "", Json(Some(5), "5")), Property(key, ".txt", Json(Some(9), "9"));
    var disk := Disk(Typed([five, nine]), Absent);
    TwoEntries(five, nine);
    assert FirstInteger([five, nine], key) == Some(5);
    LookupAfterMigration(disk, [key], key, 1, 1, 20);
    assert key in [key] && Missing(disk, [key]);
  }

  /** A name repeated in the settings, whichever it is: a setting of 5 is lost when another key is migrated. */
  lemma RepeatedNameLosesSetting(keys: seq<string>, key: string, other: string, x: Property)
    requires Plain(keys) && key in keys && other in keys && key != other && x.key != key
    ensures var flags := Saved(map[other := Json(Some(1), "1")]);
      var disk := Disk(flags, Typed([Property(key, "", Json(Some(5), "5")), x, x]));
      && Lookup(disk, key, 1, 1, 20) == 5 && Lookup(AfterBoth(disk, keys), key, 1, 1, 20) == 1
      && key !in Held(AfterBoth(disk, keys).settings)
  {
    var five := Property(key, "", Json(Some(5), "5"));
    var properties := [five, x, x];
    var disk := Disk(Saved(map[other := Json(Some(1), "1")]), Typed(properties));
    assert properties[1].key == properties[2].key && properties[1].form == properties[2].form;
    assert Refused(disk.settings);
    SuffixedIs(key);
    SuffixedIs(other);
    assert FirstInteger(properties, key) == Some(5);
    RefusedIsOverwritten(disk, keys, key, other);
  }

  /** The settings of a refused file are gone once another flag is migrated. */
  lemma RefusedIsOverwritten(disk: Disk, keys: seq<string>, key: string, other: string)
    requires Plain(keys) && key in keys && other in keys && Refused(disk.settings)
    requires other in ReadRaw(disk.flags) && key !in ReadRaw(disk.flags) && key + SUFFIX !in ReadRaw(disk.flags)
    ensures Lookup(AfterBoth(disk, keys), key, 1, 1, 20) == 1
    ensures key !in Held(AfterBoth(disk, keys).settings)
  {
    assert Missing(disk, keys) && Migrating(disk, keys);
    ReadAfter(disk, keys, key);
    WrittenWhen(disk, keys);
    SuffixedIs(key);
  }

  /**
   A flag whose name ends in the suffix twice: the first migration, of another key, strips the name once, which
   brings the flag to life, and the second migrates it.
   */
  lemma DoubledSuffixRunsTwice(keys: seq<string>, key: string, other: string)
    requires Plain(keys) && key in keys && other in keys && key != other
    ensures var a, b := Property(other, "", Json(Some(1), "1")), Property(key + SUFFIX, ".txt", Json(Some(5), "5"));
      var disk := Disk(Typed([a, b]), Absent);
      var once := AfterBoth(disk, keys);
      && Lookup(disk, key, 1, 1, 20) == 1 && Lookup(once, key, 1, 1, 20) == 5
      && AfterBoth(once, keys) != once
  {
    var a, b := Property(other, "", Json(Some(1), "1")), Property(key + SUFFIX, ".txt", Json(Some(5), "5"));
    var disk := Disk(Typed([a, b]), Absent);
    SuffixedIs(key);
    TwoEntries(a, b);
    NoFirst([a, b], key);
    SuffixStripped(disk, keys, key, other);
    SecondRunIsIdle(disk, keys);
  }

  /** A suffixed flag comes to life when another flag is migrated. */
  lemma SuffixStripped(disk: Disk, keys: seq<string>, key: string, other: string)
    requires Plain(keys) && key in keys && other in keys && other in ReadRaw(disk.flags) && disk.settings == Absent
    requires key !in ReadRaw(disk.flags) && EntryInteger(ReadRaw(disk.flags), key + SUFFIX).Some?
    ensures Lookup(AfterBoth(disk, keys), key, 1, 1, 20)
         == Clamp(ReadRaw(disk.flags)[key + SUFFIX].integer.value, 1, 20)
    ensures !Settles(disk, keys)
  {
    ReadAfter(disk, keys, key);
    assert Missing(disk, keys) && Migrating(disk, keys);
  }

  // ----- the migration in place -----

  /** The stages of a run, told by the two change flags. */
  lemma Stages(disk: Disk, keys: seq<string>, newSettings: File, newFlags: File, settingsChanged: bool,
        flagsChanged: bool)
    requires var flags, settings := ReadRaw(disk.flags), ReadRaw(disk.settings);
      && newSettings == Saved(NewSettings(flags, settings, keys)) && newFlags == Saved(NewFlags(flags, keys))
      && (settingsChanged <==> newSettings != Saved(settings)) && (flagsChanged <==> newFlags != Saved(flags))
    ensures AfterFirst(disk, keys) == if settingsChanged then disk.(settings := newSettings) else disk
    ensures AfterBoth(disk, keys) ==
      if flagsChanged then AfterFirst(disk, keys).(flags := newFlags) else AfterFirst(disk, keys)
  {
    WrittenWhen(disk, keys);
    NothingMissing(ReadRaw(disk.flags), ReadRaw(disk.settings), keys);
    NothingMigrated(ReadRaw(disk.flags), keys);
  }

  class Files {
    var flags: File
    var settings: File

    ghost function Contents(): Disk
      reads this
    {
      Disk(flags, settings)
    }

    constructor (flags: File, settings: File)
      ensures Contents() == Disk(flags, settings)
    {
      this.flags := flags;
      this.settings := settings;
    }

    /** One run, which may be cut off before either write; it gets as far as it is let. */
    method Migrate(keys: seq<string>, progress: Progress)
      modifies this
      ensures Contents() == Reached(old(Contents()), keys, progress)
    {
      ghost var disk := Contents();
      var oldFlags := ReadRaw(flags);
      if |oldFlags| == 0 {
        WrittenWhen(disk, keys);
        return;
      }
      var newSettings, newFlags, settingsChanged, flagsChanged := MoveKeys(oldFlags, ReadRaw(settings), keys);
      Stages(disk, keys, Saved(newSettings), Saved(newFlags), settingsChanged, flagsChanged);
      if progress == BeforeWrites {
        return;
      }
      if settingsChanged {
        settings := Saved(newSettings);
      }
      assert Contents() == AfterFirst(disk, keys);
      if progress == BetweenWrites {
        return;
      }
      if flagsChanged {
        flags := Saved(newFlags);
      }
      assert Contents() == AfterBoth(disk, keys);
    }
  }

  /** Moves the keys one by one, from the flag dictionary to the settings dictionary. */
  method MoveKeys(flags: map<string, Json>, settings: map<string, Json>, keys: seq<string>)
    returns (newSettings: map<string, Json>, newFlags: map<string, Json>, settingsChanged: bool, flagsChanged: bool)
    ensures newSettings == NewSettings(flags, settings, keys) && newFlags == NewFlags(flags, keys)
    ensures settingsChanged <==> newSettings != settings
    ensures flagsChanged <==> newFlags != flags
  {
    newSettings, newFlags, settingsChanged, flagsChanged := settings, flags, false, false;
    for k := 0 to |keys|
      invariant newSettings == NewSettings(flags, settings, keys[..k])
      invariant newFlags == NewFlags(flags, keys[..k])
      invariant settingsChanged <==> newSettings != settings
      invariant flagsChanged <==> newFlags != flags
    {
      var key := keys[k];
      assert keys[..k + 1] == keys[..k] + [key];
      NextKey(flags, settings, keys[..k], key);
      if key in newFlags {
        var value := newFlags[key];
        if key !in newSettings {
          newSettings := newSettings[key := value];
          settingsChanged := true;
        }
        newFlags := newFlags - {key};
        flagsChanged := true;
      }
    }
    assert keys[..|keys|] == keys;
  }

  lemma NextKey(flags: map<string, Json>, settings: map<string, Json>, keys: seq<string>, key: string)
    ensures var before, after := NewSettings(flags, settings, keys), NewSettings(flags, settings, keys + [key]);
      after == if key in NewFlags(flags, keys) && key !in before then before[key := flags[key]] else before
    ensures NewFlags(flags, keys + [key]) == NewFlags(flags, keys) - {key}
    ensures key in NewFlags(flags, keys) ==> NewFlags(flags, keys + [key]) != flags
    ensures var before := NewSettings(flags, settings, keys);
      key in NewFlags(flags, keys) && key !in before ==> NewSettings(flags, settings, keys + [key]) != settings
  {
  }
}
