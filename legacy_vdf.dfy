/** The first reader of `localconfig.vdf`: the same typed chain, but every
    app key is kept as text, a malformed entry reads as having no launch
    options, and a decoding failure aborts instead of being returned. */
module LegacyVdf {
  import opened Wrappers
  import opened Text
  import opened KeyValues
  import opened LocalConfig

  /** One entry as this reader takes it: a section's `LaunchOptions` string;
      `""` for a section without one and for an entry that is not a section
      at all (`unwrap_or_default`); an abort when `LaunchOptions` is itself
      a section. */
  function LegacyEntry(entry: Node): Outcome<string>
  {
    var props := if entry.Section? then entry.children else map[];
    if LAUNCH_OPTIONS !in props then Ok("")
    else match props[LAUNCH_OPTIONS]
      case Str(text) => Ok(text)
      case Section(_) => Panic(UNWRAP_FAILED)
  }

  ghost predicate AllLegacyReadable(apps: map<string, Node>)
  {
    forall k | k in apps :: LegacyEntry(apps[k]).Ok?
  }

  /** The map `deserialize` builds from an `apps` section. */
  ghost function LegacyApps(apps: map<string, Node>): Outcome<map<string, string>>
  {
    if AllLegacyReadable(apps) then Ok(map k | k in apps :: LegacyEntry(apps[k]).value)
    else Panic(UNWRAP_FAILED)
  }

  /** What `deserialize` returns for a decoded document. */
  ghost function LegacySpec(doc: Document): Outcome<map<string, string>>
  {
    match DecodeStore(doc.body)
    case Ok(store) => LegacyApps(AppsOf(store))
    case _ => Panic(UNWRAP_FAILED)
  }

  /** `deserialize`: decoding failures abort (`unwrap`). */
  method Deserialize(doc: Document) returns (r: Outcome<map<string, string>>)
    ensures r == LegacySpec(doc)
  {
    var decoded := DecodeStore(doc.body);
    if !decoded.Ok? {
      return Panic(UNWRAP_FAILED);
    }
    r := DeserializeApps(decoded.value.software.valve.steam.apps.values);
  }

  /** The loop of `deserialize`: the entries are visited in the hash map's
      order, which is left unspecified here; the result does not depend
      on it. */
  method DeserializeApps(apps: map<string, Node>) returns (r: Outcome<map<string, string>>)
    ensures r == LegacyApps(apps)
  {
    var results := map[];
    var rest := apps.Keys;
    while rest != {}
      invariant rest <= apps.Keys && results.Keys == apps.Keys - rest
      invariant forall k | k in results :: LegacyEntry(apps[k]) == Ok(results[k])
      decreases |rest|
    {
      var appid :| appid in rest;
      var launchOptions := ReadEntry(apps[appid]);
      if !launchOptions.Ok? {
        assert !AllLegacyReadable(apps);
        return Panic(UNWRAP_FAILED);
      }
      results := results[appid := launchOptions.value];
      rest := rest - {appid};
    }
    LegacyDone(apps, results);
    r := Ok(results);
  }

  /** Once every entry is read, the map is the reader's result. */
  lemma LegacyDone(apps: map<string, Node>, results: map<string, string>)
    requires results.Keys == apps.Keys
    requires forall k | k in results :: LegacyEntry(apps[k]) == Ok(results[k])
    ensures LegacyApps(apps) == Ok(results)
  {
    assert AllLegacyReadable(apps);
    assert results == map k | k in apps :: LegacyEntry(apps[k]).value;
  }

  /** The body of the loop for one app: its properties, or none when the
      entry is not a section; then `LaunchOptions`, or `""`. */
  method ReadEntry(entry: Node) returns (r: Outcome<string>)
    ensures r == LegacyEntry(entry)
  {
    var parsed := AsSection(entry);
    var properties := if parsed.Ok? then parsed.value else map[];
    if LAUNCH_OPTIONS in properties {
      var launchOptions := AsString(properties[LAUNCH_OPTIONS]);
      if !launchOptions.Ok? {
        return Panic(UNWRAP_FAILED);
      }
      r := Ok(launchOptions.value);
    } else {
      r := Ok("");
    }
  }

  /** The reader never returns an error: it yields a map or aborts, and it
      yields a map exactly when the chain is there and no entry's
      `LaunchOptions` is a section. */
  lemma LegacyOutcome(doc: Document)
    ensures !LegacySpec(doc).Err?
    ensures LegacySpec(doc).Ok? <==>
      HasChain(doc.body) && AllLegacyReadable(AppsOf(DecodeStore(doc.body).value))
  {
    DecodeIffChain(doc.body);
  }

  /** Every app key is kept, as text, with its launch options or `""`. */
  lemma LegacyValues(apps: map<string, Node>)
    requires LegacyApps(apps).Ok?
    ensures LegacyApps(apps).value.Keys == apps.Keys
    ensures forall k | k in apps ::
      LegacyApps(apps).value[k] ==
        if apps[k].Section? && LAUNCH_OPTIONS in apps[k].children then apps[k].children[LAUNCH_OPTIONS].text
        else ""
  {
  }

  /** Where the typed reader succeeds on canonical keys, this reader agrees
      with it key by key. */
  lemma LegacyAgreesWithRead(apps: map<string, Node>)
    requires ReadApps(apps).Ok? && CanonicalKeys(apps)
    ensures LegacyApps(apps).Ok?
    ensures forall k | k in apps :: (ParseU32(k).Ok? && ParseU32(k).value in ReadApps(apps).value
      && LegacyApps(apps).value[k] == ReadApps(apps).value[ParseU32(k).value])
    ensures forall id | id in ReadApps(apps).value :: Decimal(id) in LegacyApps(apps).value
  {
    ReadAppsOkIff(apps);
    ReadCanonical(apps);
    forall k | k in apps
      ensures LegacyEntry(apps[k]) == EntryLaunchOptions(apps[k])
    {
    }
    var legacy := LegacyApps(apps).value;
    var read := ReadApps(apps).value;
    forall k | k in apps
      ensures ParseU32(k).Ok? && ParseU32(k).value in read && legacy[k] == read[ParseU32(k).value]
    {
      assert IsCanonicalId(k);
    }
  }

  /** A string where an app's section belongs fails the typed reader but
      reads here as an app without launch options. */
  lemma LegacyToleratesStringEntry(apps: map<string, Node>, k: string)
    requires k in apps && apps[k].Str?
    ensures !ReadApps(apps).Ok?
    ensures LegacyApps(apps).Ok? ==> LegacyApps(apps).value[k] == ""
  {
    ReadAppsOkIff(apps);
  }
}
