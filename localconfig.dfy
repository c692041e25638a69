/** The user-local configuration store (`localconfig.vdf`): the typed
    chain `Software` / `Valve` / `Steam` / `apps` over the decoded tree,
    reading every app's `LaunchOptions` into a map keyed by app ID, and
    merging edited launch options back into the tree. */
module LocalConfig {
  import opened Wrappers
  import opened Text
  import opened KeyValues

  const LAUNCH_OPTIONS := "LaunchOptions"
  const ROOT_KEY := "UserLocalConfigStore"
  const SOFTWARE := "Software"
  const VALVE := "Valve"
  const STEAM := "Steam"
  const APPS := "apps"

  // ---------------------------------------------------------------------
  // The typed chain. Each level knows one child by name and keeps every
  // other child, unread, in `other` (the flattened catch-all map).
  // ---------------------------------------------------------------------

  datatype Apps = Apps(values: map<string, Node>)
  datatype Steam = Steam(apps: Apps, other: map<string, Node>)
  datatype Valve = Valve(steam: Steam, other: map<string, Node>)
  datatype Software = Software(valve: Valve, other: map<string, Node>)
  datatype Store = Store(software: Software, other: map<string, Node>)

  /** No level's opaque children repeat the name of its known child, as
      is the case for every decoded store. */
  ghost predicate WellFormed(s: Store)
  {
    && SOFTWARE !in s.other
    && VALVE !in s.software.other
    && STEAM !in s.software.valve.other
    && APPS !in s.software.valve.steam.other
  }

  function EncodeSteam(s: Steam): Node
  {
    Section(s.other[APPS := Section(s.apps.values)])
  }

  function EncodeValve(v: Valve): Node
  {
    Section(v.other[STEAM := EncodeSteam(v.steam)])
  }

  function EncodeSoftware(s: Software): Node
  {
    Section(s.other[VALVE := EncodeValve(s.valve)])
  }

  /** The tree the serializer writes under the root key. */
  function EncodeStore(s: Store): Node
  {
    Section(s.other[SOFTWARE := EncodeSoftware(s.software)])
  }

  function DecodeSteam(n: Node): (r: Outcome<Steam>)
    ensures r.Ok? ==> APPS !in r.value.other && EncodeSteam(r.value) == n
  {
    var children :- AsSection(n);
    var apps :- Field(children, APPS);
    var values :- AsSection(apps);
    Ok(Steam(Apps(values), children - {APPS}))
  }

  function DecodeValve(n: Node): (r: Outcome<Valve>)
    ensures r.Ok? ==> STEAM !in r.value.other && EncodeValve(r.value) == n
  {
    var children :- AsSection(n);
    var steam :- Field(children, STEAM);
    var s :- DecodeSteam(steam);
    Ok(Valve(s, children - {STEAM}))
  }

  function DecodeSoftware(n: Node): (r: Outcome<Software>)
    ensures r.Ok? ==> VALVE !in r.value.other && EncodeSoftware(r.value) == n
  {
    var children :- AsSection(n);
    var valve :- Field(children, VALVE);
    var v :- DecodeValve(valve);
    Ok(Software(v, children - {VALVE}))
  }

  /** Deserializing the body of the document into the typed chain. The
      result re-encodes to exactly the input: nothing is lost. */
  function DecodeStore(n: Node): (r: Outcome<Store>)
    ensures r.Ok? ==> WellFormed(r.value) && EncodeStore(r.value) == n
  {
    var children :- AsSection(n);
    var software :- Field(children, SOFTWARE);
    var s :- DecodeSoftware(software);
    Ok(Store(s, children - {SOFTWARE}))
  }

  /** The body holds the exact, case-sensitive chain of sections
      `Software` / `Valve` / `Steam` / `apps`. */
  ghost predicate HasChain(n: Node)
  {
    && n.Section? && SOFTWARE in n.children
    && var software := n.children[SOFTWARE];
    && software.Section? && VALVE in software.children
    && var valve := software.children[VALVE];
    && valve.Section? && STEAM in valve.children
    && var steam := valve.children[STEAM];
    && steam.Section? && APPS in steam.children
    && steam.children[APPS].Section?
  }

  lemma DecodeIffChain(n: Node)
    ensures DecodeStore(n).Ok? <==> HasChain(n)
    ensures DecodeStore(n).Ok? || DecodeStore(n).Err?
  {
  }

  /** Encoding a well-formed store and decoding it again gives it back. */
  lemma StoreRoundTrip(s: Store)
    requires WellFormed(s)
    ensures DecodeStore(EncodeStore(s)) == Ok(s)
  {
    var steam := s.software.valve.steam;
    assert steam.other[APPS := Section(steam.apps.values)] - {APPS} == steam.other;
    var valve := s.software.valve;
    assert valve.other[STEAM := EncodeSteam(steam)] - {STEAM} == valve.other;
    var software := s.software;
    assert software.other[VALVE := EncodeValve(valve)] - {VALVE} == software.other;
    assert s.other[SOFTWARE := EncodeSoftware(software)] - {SOFTWARE} == s.other;
  }

  function AppsOf(s: Store): map<string, Node>
  {
    s.software.valve.steam.apps.values
  }

  /** The store with its `apps` section replaced and every other branch kept. */
  function WithApps(s: Store, values: map<string, Node>): (r: Store)
    ensures AppsOf(r) == values
  {
    s.(software := s.software.(valve := s.software.valve.(steam := s.software.valve.steam.(apps := Apps(values)))))
  }

  // ---------------------------------------------------------------------
  // Reading launch options
  // ---------------------------------------------------------------------

  /** One app's launch options as the reader takes them: the entry must be
      a section; its `LaunchOptions` child, when present, must be a
      string; when absent the value is empty. */
  function EntryLaunchOptions(entry: Node): Outcome<string>
  {
    var props :- AsSection(entry);
    if LAUNCH_OPTIONS in props then AsString(props[LAUNCH_OPTIONS]) else Ok("")
  }

  /** The reader's map after visiting `keys` in order, inserting each
      parsed ID; the first failure aborts the whole read. */
  function ReadEntries(apps: map<string, Node>, keys: seq<string>): Outcome<map<U32, string>>
    requires forall k | k in keys :: k in apps
  {
    if keys == [] then Ok(map[])
    else
      var acc :- ReadEntries(apps, keys[..|keys| - 1]);
      var k := keys[|keys| - 1];
      var launchOptions :- EntryLaunchOptions(apps[k]);
      var id :- ParseU32(k);
      Ok(acc[id := launchOptions])
  }

  /** What `read_launch_options` returns for a decoded document. */
  ghost function ReadSpec(doc: Document): Outcome<map<U32, string>>
  {
    var store :- DecodeStore(doc.body);
    ReadApps(AppsOf(store))
  }

  method ReadLaunchOptions(doc: Document) returns (r: Outcome<map<U32, string>>)
    ensures r == ReadSpec(doc)
  {
    var config :- DecodeStore(doc.body);
    var apps := config.software.valve.steam.apps.values;
    var keys := SortedKeys(apps);
    var result := map[];
    for i := 0 to |keys|
      invariant ReadEntries(apps, keys[..i]) == Ok(result)
    {
      ReadStep(apps, keys, i);
      var appid := keys[i];
      var properties :- AsSection(apps[appid]);
      if LAUNCH_OPTIONS in properties {
        var launchOptions :- AsString(properties[LAUNCH_OPTIONS]);
        var id :- ParseU32(appid);
        result := result[id := launchOptions];
      } else {
        var id :- ParseU32(appid);
        result := result[id := ""];
      }
    }
    assert keys[..|keys|] == keys;
    r := Ok(result);
  }

  /** One step of the reader's loop: the map grows by the next key, or the
      read ends with that key's failure. */
  lemma ReadStep(apps: map<string, Node>, keys: seq<string>, i: nat)
    requires forall k | k in keys :: k in apps
    requires i < |keys| && ReadEntries(apps, keys[..i]).Ok?
    ensures ReadEntries(apps, keys[..i + 1]) ==
      var acc := ReadEntries(apps, keys[..i]).value;
      match EntryLaunchOptions(apps[keys[i]])
      case Ok(lo) => (match ParseU32(keys[i]) case Ok(id) => Ok(acc[id := lo]) case Err(e) => Err(e) case Panic(p) => Panic(p))
      case Err(e) => Err(e)
      case Panic(p) => Panic(p)
    ensures !ReadEntries(apps, keys[..i + 1]).Ok? ==> ReadEntries(apps, keys) == ReadEntries(apps, keys[..i + 1])
  {
    assert keys[..i + 1][..i] == keys[..i];
    if !ReadEntries(apps, keys[..i + 1]).Ok? {
      ReadFailurePersists(apps, keys, i + 1);
    }
  }

  lemma {:induction false} ReadFailurePersists(apps: map<string, Node>, keys: seq<string>, n: nat)
    requires forall k | k in keys :: k in apps
    requires n <= |keys| && !ReadEntries(apps, keys[..n]).Ok?
    ensures ReadEntries(apps, keys) == ReadEntries(apps, keys[..n])
    decreases |keys|
  {
    if n < |keys| {
      var init := keys[..|keys| - 1];
      assert init[..n] == keys[..n];
      ReadFailurePersists(apps, init, n);
    } else {
      assert keys[..n] == keys;
    }
  }

  /** The read succeeds exactly when every key parses as a u32 and every
      entry yields its launch options; one bad entry fails the whole read. */
  lemma {:induction false} ReadEntriesOkIff(apps: map<string, Node>, keys: seq<string>)
    requires forall k | k in keys :: k in apps
    ensures ReadEntries(apps, keys).Ok?
      <==> forall k | k in keys :: EntryLaunchOptions(apps[k]).Ok? && ParseU32(k).Ok?
    ensures ReadEntries(apps, keys).Ok? || ReadEntries(apps, keys).Err?
  {
    if keys != [] {
      var init := keys[..|keys| - 1];
      ReadEntriesOkIff(apps, init);
      assert keys == init + [keys[|keys| - 1]];
    }
  }

  /** The keys of the read map are exactly the parsed app keys. */
  lemma {:induction false} ReadEntriesKeys(apps: map<string, Node>, keys: seq<string>)
    requires forall k | k in keys :: k in apps
    requires ReadEntries(apps, keys).Ok?
    ensures forall k | k in keys :: ParseU32(k).Ok? && ParseU32(k).value in ReadEntries(apps, keys).value
    ensures forall id | id in ReadEntries(apps, keys).value :: exists k :: k in keys && ParseU32(k) == Ok(id)
  {
    if keys != [] {
      var init := keys[..|keys| - 1];
      ReadEntriesKeys(apps, init);
      assert keys == init + [keys[|keys| - 1]];
      forall id | id in ReadEntries(apps, keys).value
        ensures exists k :: k in keys && ParseU32(k) == Ok(id)
      {
        if id != ParseU32(keys[|keys| - 1]).value {
          var k :| k in init && ParseU32(k) == Ok(id);
          assert k in keys;
        }
      }
    }
  }

  /** The value stored for an ID is that of the last key, in visiting
      order, that parses to it. */
  lemma {:induction false} ReadEntriesLastWins(apps: map<string, Node>, keys: seq<string>, i: nat)
    requires forall k | k in keys :: k in apps
    requires ReadEntries(apps, keys).Ok? && i < |keys|
    requires forall j :: i < j < |keys| ==> ParseU32(keys[j]) != ParseU32(keys[i])
    ensures ParseU32(keys[i]).Ok? && EntryLaunchOptions(apps[keys[i]]).Ok?
    ensures ParseU32(keys[i]).value in ReadEntries(apps, keys).value
    ensures ReadEntries(apps, keys).value[ParseU32(keys[i]).value] == EntryLaunchOptions(apps[keys[i]]).value
  {
    var init := keys[..|keys| - 1];
    ReadEntriesOkIff(apps, init);
    if i < |keys| - 1 {
      assert keys[|keys| - 1] == keys[|keys| - 1];
      ReadEntriesLastWins(apps, init, i);
    }
  }

  /** Every app key is in canonical decimal form, as the client writes them. */
  ghost predicate CanonicalKeys(apps: map<string, Node>)
  {
    forall k | k in apps :: IsCanonicalId(k)
  }

  /** The launch-options map read from an `apps` section, its keys
      visited in ascending order. */
  ghost function ReadApps(apps: map<string, Node>): Outcome<map<U32, string>>
  {
    ReadEntries(apps, Ascending(apps.Keys))
  }

  /** Reading fails, with an error rather than a partial map, unless the
      document has the `Software` / `Valve` / `Steam` / `apps` chain. */
  lemma ReadNeedsChain(doc: Document)
    ensures ReadSpec(doc).Ok? ==> HasChain(doc.body)
    ensures HasChain(doc.body) ==> ReadSpec(doc) == ReadApps(AppsOf(DecodeStore(doc.body).value))
    ensures ReadSpec(doc).Ok? || ReadSpec(doc).Err?
  {
    DecodeIffChain(doc.body);
    if HasChain(doc.body) {
      ReadEntriesOkIff(AppsOf(DecodeStore(doc.body).value), Ascending(AppsOf(DecodeStore(doc.body).value).Keys));
    }
  }

  /** The read succeeds exactly when every app key parses as a u32 and
      every entry is a section whose `LaunchOptions`, if any, is a string:
      a single bad entry fails the whole read instead of being skipped. */
  lemma ReadAppsOkIff(apps: map<string, Node>)
    ensures ReadApps(apps).Ok? <==> forall k | k in apps :: EntryLaunchOptions(apps[k]).Ok? && ParseU32(k).Ok?
    ensures ReadApps(apps).Ok? || ReadApps(apps).Err?
  {
    ReadEntriesOkIff(apps, Ascending(apps.Keys));
  }

  /** The read map has one key per app key, that key parsed as a u32. */
  lemma ReadAppsKeys(apps: map<string, Node>)
    requires ReadApps(apps).Ok?
    ensures forall k | k in apps :: ParseU32(k).Ok? && ParseU32(k).value in ReadApps(apps).value
    ensures forall id | id in ReadApps(apps).value :: exists k :: k in apps && ParseU32(k) == Ok(id)
  {
    ReadEntriesKeys(apps, Ascending(apps.Keys));
  }

  /** An app key no other key collides with reads as its entry's
      `LaunchOptions`, or `""` when the entry has none. */
  lemma ReadAppsValue(apps: map<string, Node>, k: string)
    requires ReadApps(apps).Ok? && k in apps
    requires forall k' | k' in apps && k' != k :: ParseU32(k') != ParseU32(k)
    ensures ParseU32(k).Ok? && ParseU32(k).value in ReadApps(apps).value
    ensures EntryLaunchOptions(apps[k]).Ok?
    ensures ReadApps(apps).value[ParseU32(k).value] == EntryLaunchOptions(apps[k]).value
  {
    var keys := Ascending(apps.Keys);
    var i :| 0 <= i < |keys| && keys[i] == k;
    forall j | i < j < |keys|
      ensures ParseU32(keys[j]) != ParseU32(keys[i])
    {
      assert Below(keys[i], keys[j]);
      BelowIrreflexive(k);
    }
    ReadEntriesLastWins(apps, keys, i);
  }

  /** With canonical keys the read map is, ID by ID, each entry's launch
      options. */
  lemma ReadCanonical(apps: map<string, Node>)
    requires CanonicalKeys(apps) && forall k | k in apps :: EntryLaunchOptions(apps[k]).Ok?
    ensures ReadApps(apps).Ok?
    ensures forall id: U32 :: id in ReadApps(apps).value <==> Decimal(id) in apps
    ensures forall id | id in ReadApps(apps).value ::
      ReadApps(apps).value[id] == EntryLaunchOptions(apps[Decimal(id)]).value
  {
    ReadAppsOkIff(apps);
    ReadAppsKeys(apps);
    var m := ReadApps(apps).value;
    forall id: U32
      ensures id in m <==> Decimal(id) in apps
    {
      if id in m {
        var k :| k in apps && ParseU32(k) == Ok(id);
      }
      if Decimal(id) in apps {
        DecimalRoundTrip(id);
      }
    }
    forall id | id in m
      ensures m[id] == EntryLaunchOptions(apps[Decimal(id)]).value
    {
      var k := Decimal(id);
      DecimalRoundTrip(id);
      forall k' | k' in apps && k' != k
        ensures ParseU32(k') != ParseU32(k)
      {
        CanonicalIdsDistinct(k', k);
      }
      ReadAppsValue(apps, k);
    }
  }

  // ---------------------------------------------------------------------
  // Writing launch options
  // ---------------------------------------------------------------------

  /** One app's properties after an edit: a blank value deletes
      `LaunchOptions`, any other value is stored verbatim. */
  function Patch(props: map<string, Node>, launchOptions: string): map<string, Node>
  {
    if IsBlank(launchOptions) then props - {LAUNCH_OPTIONS}
    else props[LAUNCH_OPTIONS := Str(launchOptions)]
  }

  /** The keys the writer uses for a set of app IDs (`u32::to_string`). */
  ghost function EditedKeys(ids: set<U32>): set<string>
  {
    set id | id in ids :: Decimal(id)
  }

  /** Every edited ID that already has an entry has a section there. */
  ghost predicate Editable(apps: map<string, Node>, ids: set<U32>)
  {
    forall id | id in ids :: Decimal(id) in apps ==> apps[Decimal(id)].Section?
  }

  /** The properties the writer starts from for a key: the existing
      section's children, or nothing for a new entry. */
  function Existing(apps: map<string, Node>, k: string): map<string, Node>
    requires k in apps ==> apps[k].Section?
  {
    if k in apps then apps[k].children else map[]
  }

  ghost function IdOfKey(ids: set<U32>, k: string): (id: U32)
    requires k in EditedKeys(ids)
    ensures id in ids && Decimal(id) == k
  {
    var id :| id in ids && Decimal(id) == k; id
  }

  /** The `apps` section once the edits for the IDs in `done` are applied. */
  ghost function Merged(apps: map<string, Node>, edits: map<U32, string>, done: set<U32>): map<string, Node>
    requires done <= edits.Keys && Editable(apps, done)
  {
    map k | k in apps.Keys + EditedKeys(done) :: MergedAt(apps, edits, done, k)
  }

  ghost function MergedAt(apps: map<string, Node>, edits: map<U32, string>, done: set<U32>, k: string): Node
    requires done <= edits.Keys && Editable(apps, done)
    requires k in apps.Keys + EditedKeys(done)
  {
    if k in EditedKeys(done) then Section(Patch(Existing(apps, k), edits[IdOfKey(done, k)]))
    else apps[k]
  }

  /** Applying every edit: fails when an edited app's entry is a string. */
  ghost function MergeSpec(apps: map<string, Node>, edits: map<U32, string>): Outcome<map<string, Node>>
  {
    if Editable(apps, edits.Keys) then Ok(Merged(apps, edits, edits.Keys)) else Err(InvalidType)
  }

  /** What `write_launch_options` produces: the same document with the
      merged `apps` section, re-encoded under `UserLocalConfigStore`. */
  ghost function WriteSpec(doc: Document, edits: map<U32, string>): Outcome<Document>
  {
    var store :- DecodeStore(doc.body);
    var apps :- MergeSpec(AppsOf(store), edits);
    Ok(Document(ROOT_KEY, EncodeStore(WithApps(store, apps))))
  }

  /** A key no edit in `done` touches keeps its entry, or its absence. */
  lemma MergedUntouched(apps: map<string, Node>, edits: map<U32, string>, done: set<U32>, k: string)
    requires done <= edits.Keys && Editable(apps, done)
    requires k !in EditedKeys(done)
    ensures k in Merged(apps, edits, done) <==> k in apps
    ensures k in apps ==> Merged(apps, edits, done)[k] == apps[k]
  {
  }

  /** The entry an edit in `done` leaves for its app. */
  lemma MergedEdited(apps: map<string, Node>, edits: map<U32, string>, done: set<U32>, id: U32)
    requires done <= edits.Keys && Editable(apps, done) && id in done
    ensures Decimal(id) in Merged(apps, edits, done)
    ensures Merged(apps, edits, done)[Decimal(id)] == Section(Patch(Existing(apps, Decimal(id)), edits[id]))
  {
    var key := Decimal(id);
    assert key in EditedKeys(done);
    DecimalInjective(IdOfKey(done, key), id);
  }

  lemma MergedStep(apps: map<string, Node>, edits: map<U32, string>, done: set<U32>, id: U32)
    requires done <= edits.Keys && id in edits && id !in done
    requires Editable(apps, done + {id})
    ensures Merged(apps, edits, done + {id}) ==
      Merged(apps, edits, done)[Decimal(id) := Section(Patch(Existing(apps, Decimal(id)), edits[id]))]
  {
    var after := Merged(apps, edits, done + {id});
    var updated := Merged(apps, edits, done)[Decimal(id) := Section(Patch(Existing(apps, Decimal(id)), edits[id]))];
    forall k
      ensures k in after <==> k in updated
      ensures k in after ==> after[k] == updated[k]
    {
      MergedStepAt(apps, edits, done, id, k);
    }
    SameEntries(after, updated);
  }

  lemma MergedStepAt(apps: map<string, Node>, edits: map<U32, string>, done: set<U32>, id: U32, k: string)
    requires done <= edits.Keys && id in edits && id !in done
    requires Editable(apps, done + {id})
    ensures var after := Merged(apps, edits, done + {id});
      var updated := Merged(apps, edits, done)[Decimal(id) := Section(Patch(Existing(apps, Decimal(id)), edits[id]))];
      (k in after <==> k in updated) && (k in after ==> after[k] == updated[k])
  {
    var key := Decimal(id);
    if k == key {
      MergedEdited(apps, edits, done + {id}, id);
    } else if k in EditedKeys(done) {
      var j := IdOfKey(done, k);
      MergedEdited(apps, edits, done + {id}, j);
      MergedEdited(apps, edits, done, j);
    } else {
      assert k !in EditedKeys(done + {id});
      MergedUntouched(apps, edits, done + {id}, k);
      MergedUntouched(apps, edits, done, k);
    }
  }

  lemma SameEntries(a: map<string, Node>, b: map<string, Node>)
    requires forall k | k in a :: k in b && a[k] == b[k]
    requires forall k | k in b :: k in a
    ensures a == b
  {
  }

  /** An edit aimed at an entry that is a string fails the write. */
  lemma WriteFailsOnString(doc: Document, edits: map<U32, string>, id: U32)
    requires DecodeStore(doc.body).Ok? && id in edits
    requires var apps := AppsOf(DecodeStore(doc.body).value);
      Decimal(id) in apps && apps[Decimal(id)].Str?
    ensures WriteSpec(doc, edits) == Err(InvalidType)
  {
  }

  method WriteLaunchOptions(doc: Document, allLaunchOptions: map<U32, string>) returns (r: Outcome<Document>)
    ensures r == WriteSpec(doc, allLaunchOptions)
  {
    var config :- DecodeStore(doc.body);
    var values :- MergeLaunchOptions(config.software.valve.steam.apps.values, allLaunchOptions);
    config := WithApps(config, values);
    r := Ok(Document(ROOT_KEY, EncodeStore(config)));
  }

  /** The loop of `write_launch_options` over the `apps` section, taking
      the edits in ascending ID order. */
  method MergeLaunchOptions(apps: map<string, Node>, allLaunchOptions: map<U32, string>)
    returns (r: Outcome<map<string, Node>>)
    ensures r == MergeSpec(apps, allLaunchOptions)
  {
    var values := apps;
    var rest := allLaunchOptions.Keys;
    while rest != {}
      invariant rest <= allLaunchOptions.Keys
      invariant Editable(apps, allLaunchOptions.Keys - rest)
      invariant values == Merged(apps, allLaunchOptions, allLaunchOptions.Keys - rest)
      decreases |rest|
    {
      SmallestExists(rest);
      var appid :| IsSmallest(appid, rest);
      ghost var done := allLaunchOptions.Keys - rest;
      MergeNext(apps, allLaunchOptions, done, appid);
      values :- EditEntry(values, Decimal(appid), allLaunchOptions[appid]);
      rest := rest - {appid};
      assert allLaunchOptions.Keys - rest == done + {appid};
    }
    assert allLaunchOptions.Keys - rest == allLaunchOptions.Keys;
    r := Ok(values);
  }

  /** One turn of the writer's loop: the app's other values (when it has
      an entry, which must be a section), patched with its launch options,
      stored back under its key. */
  method EditEntry(values: map<string, Node>, key: string, launchOptions: string)
    returns (r: Outcome<map<string, Node>>)
    ensures r.Ok? <==> !(key in values && values[key].Str?)
    ensures !r.Ok? ==> r == Err(InvalidType)
    ensures r.Ok? ==> r.value == values[key := Section(Patch(Existing(values, key), launchOptions))]
  {
    var props := map[];
    // the other values of the app, when it already has an entry
    if key in values {
      props :- AsSection(values[key]);
    }
    // non-blank launch options replace the old ones; blank ones delete them
    if !IsBlank(launchOptions) {
      props := props[LAUNCH_OPTIONS := Str(launchOptions)];
    } else {
      props := props - {LAUNCH_OPTIONS};
    }
    r := Ok(values[key := Section(props)]);
  }

  /** Taking the next edit: the entry the merge has so far for its key is
      the original one, and either the edit is applicable and the merge
      grows by it, or the whole write fails. */
  lemma MergeNext(apps: map<string, Node>, edits: map<U32, string>, done: set<U32>, id: U32)
    requires done <= edits.Keys && Editable(apps, done) && id in edits && id !in done
    ensures var key := Decimal(id);
      && (key in Merged(apps, edits, done) <==> key in apps)
      && (key in apps ==> Merged(apps, edits, done)[key] == apps[key])
    ensures Decimal(id) in apps && apps[Decimal(id)].Str? ==> MergeSpec(apps, edits) == Err(InvalidType)
    ensures !(Decimal(id) in apps && apps[Decimal(id)].Str?) ==>
      && Editable(apps, done + {id})
      && Merged(apps, edits, done + {id}) ==
         Merged(apps, edits, done)[Decimal(id) := Section(Patch(Existing(apps, Decimal(id)), edits[id]))]
  {
    var key := Decimal(id);
    assert key !in EditedKeys(done) by {
      if key in EditedKeys(done) {
        DecimalInjective(IdOfKey(done, key), id);
      }
    }
    MergedUntouched(apps, edits, done, key);
    if !(key in apps && apps[key].Str?) {
      MergedStep(apps, edits, done, id);
    }
  }

  // ---------------------------------------------------------------------
  // What the write promises
  // ---------------------------------------------------------------------

  /** The write succeeds exactly when the document has the typed chain and
      no edited app's existing entry is a string; it never aborts. */
  lemma WriteOkIff(doc: Document, edits: map<U32, string>)
    ensures WriteSpec(doc, edits).Ok? <==>
      HasChain(doc.body) && Editable(AppsOf(DecodeStore(doc.body).value), edits.Keys)
    ensures WriteSpec(doc, edits).Ok? || WriteSpec(doc, edits).Err?
  {
    DecodeIffChain(doc.body);
  }

  /** The merged `apps` section holds the old keys and one key per edited
      ID; an app no edit names keeps its entry unchanged. */
  lemma MergedKeeps(apps: map<string, Node>, edits: map<U32, string>)
    requires Editable(apps, edits.Keys)
    ensures forall k :: k in Merged(apps, edits, edits.Keys) <==> k in apps || k in EditedKeys(edits.Keys)
    ensures forall k | k in apps && k !in EditedKeys(edits.Keys) :: Merged(apps, edits, edits.Keys)[k] == apps[k]
  {
  }

  /** An edited app's entry after the write: a section holding all of its
      old values except `LaunchOptions`, which is the new value verbatim,
      or absent when the new value is blank. */
  lemma MergedEntry(apps: map<string, Node>, edits: map<U32, string>, id: U32)
    requires Editable(apps, edits.Keys) && id in edits
    ensures Decimal(id) in Merged(apps, edits, edits.Keys)
    ensures var entry := Merged(apps, edits, edits.Keys)[Decimal(id)];
      && entry.Section?
      && (IsBlank(edits[id]) ==> LAUNCH_OPTIONS !in entry.children)
      && (!IsBlank(edits[id]) ==> LAUNCH_OPTIONS in entry.children && entry.children[LAUNCH_OPTIONS] == Str(edits[id]))
      && (forall p | p != LAUNCH_OPTIONS :: p in entry.children <==> p in Existing(apps, Decimal(id)))
      && (forall p | p != LAUNCH_OPTIONS && p in entry.children :: entry.children[p] == Existing(apps, Decimal(id))[p])
  {
    MergedEdited(apps, edits, edits.Keys, id);
  }

  /** An edit for an app without an entry creates one: a section holding
      only `LaunchOptions`, or an empty section when the edit is blank. */
  lemma MergedNewEntry(apps: map<string, Node>, edits: map<U32, string>, id: U32)
    requires Editable(apps, edits.Keys) && id in edits && Decimal(id) !in apps
    ensures Decimal(id) in Merged(apps, edits, edits.Keys)
    ensures Merged(apps, edits, edits.Keys)[Decimal(id)] ==
      if IsBlank(edits[id]) then Section(map[]) else Section(map[LAUNCH_OPTIONS := Str(edits[id])])
  {
    MergedEdited(apps, edits, edits.Keys, id);
    var none: map<string, Node> := map[];
    assert none - {LAUNCH_OPTIONS} == map[];
  }

  /** Every part of the store outside the `apps` section is written back
      as it was read: the output decodes to the input's store with only
      the `apps` section replaced by the merge. */
  lemma WriteKeepsRest(doc: Document, edits: map<U32, string>)
    requires WriteSpec(doc, edits).Ok?
    ensures var store := DecodeStore(doc.body).value;
      var out := WriteSpec(doc, edits).value;
      && out.key == ROOT_KEY
      && DecodeStore(out.body).Ok?
      && var written := DecodeStore(out.body).value;
      && written.other == store.other
      && written.software.other == store.software.other
      && written.software.valve.other == store.software.valve.other
      && written.software.valve.steam.other == store.software.valve.steam.other
      && AppsOf(written) == Merged(AppsOf(store), edits, edits.Keys)
  {
    var store := DecodeStore(doc.body).value;
    StoreRoundTrip(WithApps(store, Merged(AppsOf(store), edits, edits.Keys)));
  }

  /** With no edits the write re-serializes the document unchanged apart
      from its root key. */
  lemma WriteNothing(doc: Document)
    requires HasChain(doc.body)
    ensures WriteSpec(doc, map[]) == Ok(Document(ROOT_KEY, doc.body))
  {
    DecodeIffChain(doc.body);
    var store := DecodeStore(doc.body).value;
    var none: map<U32, string> := map[];
    assert none.Keys == {};
    assert Merged(AppsOf(store), none, none.Keys) == AppsOf(store);
    assert WithApps(store, AppsOf(store)) == store;
  }

  /** Patching twice with the same value is patching once. */
  lemma PatchIdempotent(props: map<string, Node>, launchOptions: string)
    ensures Patch(Patch(props, launchOptions), launchOptions) == Patch(props, launchOptions)
  {
    if IsBlank(launchOptions) {
      assert props - {LAUNCH_OPTIONS} - {LAUNCH_OPTIONS} == props - {LAUNCH_OPTIONS};
    } else {
      var lo := Str(launchOptions);
      assert props[LAUNCH_OPTIONS := lo][LAUNCH_OPTIONS := lo] == props[LAUNCH_OPTIONS := lo];
    }
  }

  /** Writing the same edits a second time changes nothing more. */
  lemma WriteIdempotent(doc: Document, edits: map<U32, string>)
    requires WriteSpec(doc, edits).Ok?
    ensures WriteSpec(WriteSpec(doc, edits).value, edits) == WriteSpec(doc, edits)
  {
    var store := DecodeStore(doc.body).value;
    var apps := AppsOf(store);
    var once := Merged(apps, edits, edits.Keys);
    var out := WriteSpec(doc, edits).value;
    StoreRoundTrip(WithApps(store, once));
    assert DecodeStore(out.body) == Ok(WithApps(store, once));
    forall id | id in edits && Decimal(id) in once
      ensures once[Decimal(id)].Section?
    {
      MergedEdited(apps, edits, edits.Keys, id);
    }
    var twice := Merged(once, edits, edits.Keys);
    forall k
      ensures k in twice <==> k in once
      ensures k in twice ==> twice[k] == once[k]
    {
      if k in EditedKeys(edits.Keys) {
        var id := IdOfKey(edits.Keys, k);
        MergedEdited(once, edits, edits.Keys, id);
        MergedEdited(apps, edits, edits.Keys, id);
        PatchIdempotent(Existing(apps, k), edits[id]);
      }
    }
    SameEntries(twice, once);
    assert WithApps(WithApps(store, once), twice) == WithApps(store, once);
  }

  /** The launch options a read returns after the write: the edited value,
      or `""` where it was blank, for every edited ID; the old value for
      every other ID. A value of only whitespace therefore reads back as
      `""`. */
  ghost function AfterEdits(read: map<U32, string>, edits: map<U32, string>): (r: map<U32, string>)
    ensures r.Keys == read.Keys + edits.Keys
  {
    map id | id in read.Keys + edits.Keys ::
      if id in edits then (if IsBlank(edits[id]) then "" else edits[id]) else read[id]
  }

  /** The merge of readable, canonically keyed entries is readable and
      canonically keyed, and an edited entry reads as the edit, or as
      `""` when the edit is blank. */
  lemma MergedReadable(apps: map<string, Node>, edits: map<U32, string>)
    requires Editable(apps, edits.Keys) && CanonicalKeys(apps)
    requires forall k | k in apps :: EntryLaunchOptions(apps[k]).Ok?
    ensures var merged := Merged(apps, edits, edits.Keys);
      && CanonicalKeys(merged)
      && (forall k | k in merged :: EntryLaunchOptions(merged[k]).Ok?)
      && (forall id | id in edits :: Decimal(id) in merged &&
            EntryLaunchOptions(merged[Decimal(id)]) == Ok(if IsBlank(edits[id]) then "" else edits[id]))
  {
    var merged := Merged(apps, edits, edits.Keys);
    forall k | k in merged
      ensures IsCanonicalId(k) && EntryLaunchOptions(merged[k]).Ok?
    {
      if k in EditedKeys(edits.Keys) {
        var id := IdOfKey(edits.Keys, k);
        DecimalIsCanonical(id);
        MergedEdited(apps, edits, edits.Keys, id);
      }
    }
    forall id | id in edits
      ensures Decimal(id) in merged
      ensures EntryLaunchOptions(merged[Decimal(id)]) == Ok(if IsBlank(edits[id]) then "" else edits[id])
    {
      MergedEdited(apps, edits, edits.Keys, id);
    }
  }

  /** Reading back what was written gives the old launch options with the
      edits applied, when every app key is in canonical decimal form. */
  lemma ReadAfterWrite(doc: Document, edits: map<U32, string>)
    requires ReadSpec(doc).Ok? && WriteSpec(doc, edits).Ok?
    requires CanonicalKeys(AppsOf(DecodeStore(doc.body).value))
    ensures ReadSpec(WriteSpec(doc, edits).value) == Ok(AfterEdits(ReadSpec(doc).value, edits))
  {
    var store := DecodeStore(doc.body).value;
    var apps := AppsOf(store);
    var merged := Merged(apps, edits, edits.Keys);
    WriteKeepsRest(doc, edits);
    var out := WriteSpec(doc, edits).value;
    assert ReadSpec(out) == ReadApps(merged);
    ReadAppsOkIff(apps);
    ReadCanonical(apps);
    MergedReadable(apps, edits);
    ReadCanonical(merged);
    ReadAfterWriteMaps(apps, edits, merged, ReadApps(apps).value, ReadApps(merged).value);
  }

  /** The ID-by-ID reading of the merged section is the old reading with
      the edits applied. */
  lemma ReadAfterWriteMaps(apps: map<string, Node>, edits: map<U32, string>, merged: map<string, Node>,
                           before: map<U32, string>, after: map<U32, string>)
    requires Editable(apps, edits.Keys) && merged == Merged(apps, edits, edits.Keys)
    requires forall k | k in apps :: EntryLaunchOptions(apps[k]).Ok?
    requires forall k | k in merged :: EntryLaunchOptions(merged[k]).Ok?
    requires forall id: U32 :: id in before <==> Decimal(id) in apps
    requires forall id | id in before :: before[id] == EntryLaunchOptions(apps[Decimal(id)]).value
    requires forall id: U32 :: id in after <==> Decimal(id) in merged
    requires forall id | id in after :: after[id] == EntryLaunchOptions(merged[Decimal(id)]).value
    requires forall id | id in edits :: (Decimal(id) in merged &&
      EntryLaunchOptions(merged[Decimal(id)]) == Ok(if IsBlank(edits[id]) then "" else edits[id]))
    ensures after == AfterEdits(before, edits)
  {
    var expected := AfterEdits(before, edits);
    forall id: U32
      ensures id in after <==> id in expected
      ensures id in after ==> after[id] == expected[id]
    {
      var k := Decimal(id);
      if id !in edits {
        MergedUntouched(apps, edits, edits.Keys, k);
      }
    }
    assert after == expected;
  }
}
