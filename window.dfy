/** The part of the window's state (`EguiApp`) that the Save, Clear and
    table handlers change in place: the launch options being edited, one
    per app ID, and the rules by which each handler updates them. */
module AppWindow {
  import opened Wrappers
  import opened Text
  import opened KeyValues
  import opened LocalConfig
  import opened AppTable

  /** The message of the abort raised when saving fails. */
  const WRITE_FAILED := "Error failed to write launch options to config"

  /** The edits after Save applies a non-blank default: every value that
      is empty or still the previous default becomes the new default. A
      blank default changes nothing. */
  function WithDefault(values: map<U32, string>, previous: string, newDefault: string): map<U32, string>
  {
    if IsBlank(newDefault) then values
    else map id | id in values :: if values[id] == [] || values[id] == previous then newDefault else values[id]
  }

  /** What one pass over the table leaves in the edits: every shown row
      gets an entry, seeded from the file only where there was none; a
      row the filter shows and whose text the user changed takes that
      text. */
  ghost function TableSpec(values: map<U32, string>, apps: map<U32, App>, filter: string, typed: map<U32, string>)
    : map<U32, string>
  {
    map id | id in values.Keys + apps.Keys ::
      if id in apps && id in typed && IsFiltered(filter, apps[id].name) then typed[id]
      else if id in values then values[id]
      else apps[id].launchOptions
  }

  /** The document Save writes over the user's file, or the abort of its
      `expect` when the file cannot be read, decoded or written. */
  ghost function SaveSpec(files: map<string, Document>, path: string, values: map<U32, string>): Outcome<Document>
  {
    if path in files && WriteSpec(files[path], values).Ok? then WriteSpec(files[path], values)
    else Panic(WRITE_FAILED)
  }

  /** The apps of `rows[..n]`. */
  ghost function Shown(apps: map<U32, App>, rows: seq<Row>, n: nat): map<U32, App>
    requires n <= |rows|
  {
    map id | id in apps && exists k | 0 <= k < n :: rows[k].0 == id :: apps[id]
  }

  class EguiApp {
    /** The installed apps, once a user file has been loaded. */
    var apps: Option<map<U32, App>>
    /** The launch options as edited in the window, by app ID. */
    var allLaunchOptions: map<U32, string>
    var defaultLaunchOptions: string
    var filterApps: string
    var appSort: AppSort

    /** The window as the program opens it: no edits and no filter yet. */
    constructor (apps: Option<map<U32, App>>, defaultLaunchOptions: string, appSort: AppSort)
      ensures this.apps == apps && allLaunchOptions == map[]
      ensures this.defaultLaunchOptions == defaultLaunchOptions && filterApps == [] && this.appSort == appSort
    {
      this.apps := apps;
      allLaunchOptions := map[];
      this.defaultLaunchOptions := defaultLaunchOptions;
      filterApps := [];
      this.appSort := appSort;
    }

    /** The Save button: apply the default, then write every edit to the
      user's file. The previous default is the one stored in the
      program's settings before this save; the settings and the backup
      copy are not modelled. */
    method Save(previousDefault: string, files: map<string, Document>, path: string) returns (r: Outcome<Document>)
      modifies this`allLaunchOptions
      ensures allLaunchOptions == WithDefault(old(allLaunchOptions), previousDefault, defaultLaunchOptions)
      ensures r == SaveSpec(files, path, allLaunchOptions)
    {
      ApplyDefault(previousDefault);
      var written: Outcome<Document> := Err(NotFound);
      if path in files {
        written := WriteLaunchOptions(files[path], allLaunchOptions);
      }
      if written.Ok? {
        r := written;
      } else {
        r := Panic(WRITE_FAILED);
      }
    }

    /** The loop of the Save handler that fills in the default. */
    method ApplyDefault(previous: string)
      modifies this`allLaunchOptions
      ensures allLaunchOptions == WithDefault(old(allLaunchOptions), previous, defaultLaunchOptions)
    {
      if !IsBlank(defaultLaunchOptions) {
        ghost var before := allLaunchOptions;
        var rest := allLaunchOptions.Keys;
        while rest != {}
          invariant rest <= before.Keys && allLaunchOptions.Keys == before.Keys
          invariant forall id | id in before && id in rest :: allLaunchOptions[id] == before[id]
          invariant forall id | id in before && id !in rest ::
            allLaunchOptions[id] == WithDefault(before, previous, defaultLaunchOptions)[id]
          decreases |rest|
        {
          var id :| id in rest;
          var launchOptions := allLaunchOptions[id];
          if launchOptions == [] || launchOptions == previous {
            allLaunchOptions := allLaunchOptions[id := defaultLaunchOptions];
          }
          rest := rest - {id};
        }
      }
    }

    /** The Clear button: every edit becomes empty; no app is dropped. */
    method Clear()
      modifies this`allLaunchOptions
      ensures allLaunchOptions.Keys == old(allLaunchOptions).Keys
      ensures forall id | id in allLaunchOptions :: allLaunchOptions[id] == ""
    {
      ghost var before := allLaunchOptions;
      var rest := allLaunchOptions.Keys;
      while rest != {}
        invariant rest <= before.Keys && allLaunchOptions.Keys == before.Keys
        invariant forall id | id in before && id !in rest :: allLaunchOptions[id] == ""
        decreases |rest|
      {
        var id :| id in rest;
        allLaunchOptions := allLaunchOptions[id := ""];
        rest := rest - {id};
      }
    }

    /** One pass over the launch-options column of the table. `typed`
      holds the new text of each row whose text field the user changed
      in this pass; the user can only change rows the filter shows. */
    method ShowTable(typed: map<U32, string>)
      modifies this`allLaunchOptions
      ensures apps.None? ==> allLaunchOptions == old(allLaunchOptions)
      ensures apps.Some? ==> allLaunchOptions == TableSpec(old(allLaunchOptions), apps.value, filterApps, typed)
    {
      if apps.Some? {
        var rows := SortApps(appSort, apps.value);
        InOrderDistinct(appSort, rows, apps.value);
        ShowRows(apps.value, rows, typed);
        ShownAll(apps.value, rows);
      }
    }

    /** The loop over the sorted rows of the table. */
    method ShowRows(table: map<U32, App>, rows: seq<Row>, typed: map<U32, string>)
      modifies this`allLaunchOptions
      requires IsListing(rows, table)
      requires forall k, l | 0 <= k < l < |rows| :: rows[k].0 != rows[l].0
      ensures allLaunchOptions == TableSpec(old(allLaunchOptions), Shown(table, rows, |rows|), filterApps, typed)
    {
      ghost var before := allLaunchOptions;
      for i := 0 to |rows|
        invariant allLaunchOptions == TableSpec(before, Shown(table, rows, i), filterApps, typed)
      {
        var (appid, properties) := rows[i];
        ShownStep(table, rows, i);
        TableStep(before, Shown(table, rows, i), appid, properties, filterApps, typed);
        ShowRow(appid, properties, typed);
      }
    }

    /** One row of the launch-options column: seed the entry from the file
      when there is none, then take the user's text if the row is shown
      and was changed. */
    method ShowRow(appid: U32, properties: App, typed: map<U32, string>)
      modifies this`allLaunchOptions
      ensures var seeded := if appid in old(allLaunchOptions) then old(allLaunchOptions)
          else old(allLaunchOptions)[appid := properties.launchOptions];
        allLaunchOptions == if IsFiltered(filterApps, properties.name) && appid in typed then seeded[appid := typed[appid]]
          else seeded
    {
      var current := properties.launchOptions;
      if appid in allLaunchOptions {
        current := allLaunchOptions[appid];
      } else {
        allLaunchOptions := allLaunchOptions[appid := current];
      }
      if IsFiltered(filterApps, properties.name) && appid in typed {
        allLaunchOptions := allLaunchOptions[appid := typed[appid]];
      }
    }
  }

  /** All rows shown are the whole listing. */
  lemma ShownAll(apps: map<U32, App>, rows: seq<Row>)
    requires IsListing(rows, apps)
    ensures Shown(apps, rows, |rows|) == apps
  {
    forall id | id in apps
      ensures id in Shown(apps, rows, |rows|)
    {
      var k :| 0 <= k < |rows| && rows[k] == (id, apps[id]);
    }
  }

  /** One more row shown adds that row's app. */
  lemma ShownStep(apps: map<U32, App>, rows: seq<Row>, i: nat)
    requires i < |rows| && IsListing(rows, apps)
    requires forall k, l | 0 <= k < l < |rows| :: rows[k].0 != rows[l].0
    ensures rows[i].0 !in Shown(apps, rows, i)
    ensures Shown(apps, rows, i + 1) == Shown(apps, rows, i)[rows[i].0 := rows[i].1]
  {
  }

  /** The table pass over one more row updates that row's entry only. */
  lemma TableStep(values: map<U32, string>, shown: map<U32, App>, id: U32, app: App, filter: string,
                  typed: map<U32, string>)
    requires id !in shown
    ensures var table := TableSpec(values, shown, filter, typed);
      var seeded := if id in table then table else table[id := app.launchOptions];
      TableSpec(values, shown[id := app], filter, typed) ==
        if IsFiltered(filter, app.name) && id in typed then seeded[id := typed[id]] else seeded
  {
  }

  // ---------------------------------------------------------------------
  // What the handlers guarantee
  // ---------------------------------------------------------------------

  /** A non-blank default leaves no app without launch options, and
      changes nothing but the values it replaces. */
  lemma DefaultFillsEmpty(values: map<U32, string>, previous: string, newDefault: string)
    requires !IsBlank(newDefault)
    ensures WithDefault(values, previous, newDefault).Keys == values.Keys
    ensures forall id | id in values :: WithDefault(values, previous, newDefault)[id] != []
    ensures forall id | id in values && values[id] != [] && values[id] != previous ::
      WithDefault(values, previous, newDefault)[id] == values[id]
  {
    forall id | id in values
      ensures WithDefault(values, previous, newDefault)[id] != []
    {
      if values[id] == [] {
        assert Trim(newDefault) != [];
      }
    }
  }

  /** Saving again with the same default (now the stored previous one)
      changes nothing more. */
  lemma DefaultIdempotent(values: map<U32, string>, previous: string, newDefault: string)
    ensures WithDefault(WithDefault(values, previous, newDefault), newDefault, newDefault) ==
      WithDefault(values, previous, newDefault)
  {
  }

  /** Values still holding the old default follow a change of default. */
  lemma DefaultFollowsChange(values: map<U32, string>, previous: string, first: string, second: string)
    requires !IsBlank(first) && !IsBlank(second)
    ensures forall id | id in values && WithDefault(values, previous, first)[id] == first ::
      WithDefault(WithDefault(values, previous, first), first, second)[id] == second
  {
  }

  /** Saving after Clear removes `LaunchOptions` from every app the window
      lists, keeping the rest of each app's properties. */
  lemma SaveAfterClear(doc: Document, values: map<U32, string>)
    requires forall id | id in values :: values[id] == ""
    requires WriteSpec(doc, values).Ok?
    ensures var written := DecodeStore(WriteSpec(doc, values).value.body);
      && written.Ok?
      && forall id | id in values ::
        && Decimal(id) in AppsOf(written.value)
        && AppsOf(written.value)[Decimal(id)].Section?
        && LAUNCH_OPTIONS !in AppsOf(written.value)[Decimal(id)].children
  {
    WriteKeepsRest(doc, values);
    var apps := AppsOf(DecodeStore(doc.body).value);
    forall id | id in values
      ensures Decimal(id) in Merged(apps, values, values.Keys)
      ensures Merged(apps, values, values.Keys)[Decimal(id)].Section?
      ensures LAUNCH_OPTIONS !in Merged(apps, values, values.Keys)[Decimal(id)].children
    {
      assert Trim(values[id]) == [];
      MergedEntry(apps, values, id);
    }
  }

  /** A non-blank default saved after Clear gives every app that default. */
  lemma DefaultAfterClear(values: map<U32, string>, previous: string, newDefault: string)
    requires forall id | id in values :: values[id] == ""
    requires !IsBlank(newDefault)
    ensures forall id | id in values :: WithDefault(values, previous, newDefault)[id] == newDefault
  {
  }

  /** What Save writes reads back as the old launch options with the
      defaulted edits applied, for a file with canonical app keys. */
  lemma SaveReadsBack(files: map<string, Document>, path: string, values: map<U32, string>)
    requires SaveSpec(files, path, values).Ok?
    requires ReadSpec(files[path]).Ok? && CanonicalKeys(AppsOf(DecodeStore(files[path].body).value))
    ensures ReadSpec(SaveSpec(files, path, values).value) == Ok(AfterEdits(ReadSpec(files[path]).value, values))
  {
    ReadAfterWrite(files[path], values);
  }

  /** The table pass never drops an app, adds exactly the listed apps that
      had no entry, and keeps every entry the user did not change here. */
  lemma TableKeeps(values: map<U32, string>, apps: map<U32, App>, filter: string, typed: map<U32, string>)
    ensures TableSpec(values, apps, filter, typed).Keys == values.Keys + apps.Keys
    ensures forall id | id in values && !(id in apps && id in typed && IsFiltered(filter, apps[id].name)) ::
      TableSpec(values, apps, filter, typed)[id] == values[id]
    ensures forall id | id in apps && id !in values && id !in typed ::
      TableSpec(values, apps, filter, typed)[id] == apps[id].launchOptions
  {
  }

  /** A row the filter hides is never changed by typing. */
  lemma HiddenRowsUntouched(values: map<U32, string>, apps: map<U32, App>, filter: string, typed: map<U32, string>)
    ensures forall id | id in apps && !IsFiltered(filter, apps[id].name) ::
      TableSpec(values, apps, filter, typed)[id] == TableSpec(values, apps, filter, map[])[id]
  {
  }

  /** A second pass with the same typing changes nothing: the file's
      value never overwrites an entry the first pass made. */
  lemma TableIdempotent(values: map<U32, string>, apps: map<U32, App>, filter: string, typed: map<U32, string>)
    ensures TableSpec(TableSpec(values, apps, filter, typed), apps, filter, typed) ==
      TableSpec(values, apps, filter, typed)
  {
    var once := TableSpec(values, apps, filter, typed);
    var twice := TableSpec(once, apps, filter, typed);
    assert twice.Keys == once.Keys;
    forall id | id in once
      ensures twice[id] == once[id]
    {
    }
  }
}
