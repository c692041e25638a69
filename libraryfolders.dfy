/** `libraryfolders.vdf`: one section per library folder, under keys of
    any name, each holding the folder's `path` and an `apps` section whose
    keys are the IDs of the apps installed there. */
module LibraryFoldersVdf {
  import opened Wrappers
  import opened Text
  import opened KeyValues

  const APPS := "apps"
  const PATH := "path"
  const NO_APPS := "No apps found"
  const NO_PATHS := "No paths found"

  /** The two readers of the file: the installed app IDs, and the folder paths. */
  datatype Reader = InstalledApps | Paths

  /** What one folder contributes to a reader's list. */
  ghost function Each(reader: Reader, folder: Node): Outcome<seq<string>>
  {
    match reader
    case InstalledApps => FolderApps(folder)
    case Paths => FolderPath(folder)
  }

  // ---------------------------------------------------------------------
  // Walking the folders: both readers visit the folders in ascending key
  // order, skip a folder that is a string (the failed `deserialize_into`
  // yields nothing to iterate), and concatenate what each folder gives.
  // ---------------------------------------------------------------------

  /** The concatenation of what each folder gives the reader, over the folders named by `keys`, in
      order; the first folder that fails ends the walk with its failure. */
  ghost function Collect(disk: map<string, Node>, keys: seq<string>, reader: Reader)
    : Outcome<seq<string>>
    requires forall k | k in keys :: k in disk
    decreases |keys|
  {
    if keys == [] then Ok([])
    else
      var first :- Each(reader, disk[keys[0]]);
      var rest :- Collect(disk, keys[1..], reader);
      Ok(first + rest)
  }

  /** What is collected so far, followed by the outcome of the rest. */
  function Then(prefix: seq<string>, rest: Outcome<seq<string>>): Outcome<seq<string>>
  {
    if rest.Ok? then Ok(prefix + rest.value) else rest
  }

  lemma ThenNothing(rest: Outcome<seq<string>>)
    ensures Then([], rest) == rest
  {
    if rest.Ok? {
      assert [] + rest.value == rest.value;
    }
  }

  /** One folder more: the walk from folder `i` is that folder's items
      followed by the walk from folder `i + 1`, or that folder's failure. */
  lemma CollectStep(disk: map<string, Node>, keys: seq<string>, i: nat, reader: Reader,
                    prefix: seq<string>)
    requires forall k | k in keys :: k in disk
    requires i < |keys|
    ensures Each(reader, disk[keys[i]]).Ok? ==>
      Then(prefix, Collect(disk, keys[i..], reader)) ==
      Then(prefix + Each(reader, disk[keys[i]]).value, Collect(disk, keys[i + 1..], reader))
    ensures Each(reader, disk[keys[i]]) == Ok([]) ==>
      Then(prefix, Collect(disk, keys[i..], reader)) == Then(prefix, Collect(disk, keys[i + 1..], reader))
    ensures !Each(reader, disk[keys[i]]).Ok? ==> Collect(disk, keys[i..], reader) == Each(reader, disk[keys[i]])
  {
    assert keys[i..][1..] == keys[i + 1..];
    assert prefix + [] == prefix;
    if Each(reader, disk[keys[i]]).Ok? && Collect(disk, keys[i + 1..], reader).Ok? {
      var first := Each(reader, disk[keys[i]]).value;
      var rest := Collect(disk, keys[i + 1..], reader).value;
      assert prefix + (first + rest) == (prefix + first) + rest;
    }
  }

  /** Before the first folder nothing is collected. */
  lemma WalkStart(disk: map<string, Node>, keys: seq<string>, reader: Reader)
    requires forall k | k in keys :: k in disk
    ensures Collect(disk, keys, reader) == Then([], Collect(disk, keys[0..], reader))
  {
    assert keys[0..] == keys;
    ThenNothing(Collect(disk, keys, reader));
  }

  /** A reader's loop visiting folder `i`: what it collects grows by that
      folder's items, or the walk's outcome is that folder's failure. */
  lemma WalkStep(disk: map<string, Node>, keys: seq<string>, i: nat, reader: Reader,
                 result: seq<string>, got: Outcome<seq<string>>)
    requires forall k | k in keys :: k in disk
    requires i < |keys| && got == Each(reader, disk[keys[i]])
    requires Collect(disk, keys, reader) == Then(result, Collect(disk, keys[i..], reader))
    ensures got.Ok? ==>
      Collect(disk, keys, reader) == Then(result + got.value, Collect(disk, keys[i + 1..], reader))
    ensures !got.Ok? ==> Collect(disk, keys, reader) == got
  {
    CollectStep(disk, keys, i, reader, result);
  }

  /** After the last folder the walk's outcome is what was collected. */
  lemma WalkDone(disk: map<string, Node>, keys: seq<string>, reader: Reader, result: seq<string>)
    requires forall k | k in keys :: k in disk
    requires Collect(disk, keys, reader) == Then(result, Collect(disk, keys[|keys|..], reader))
    ensures Collect(disk, keys, reader) == Ok(result)
  {
    assert keys[|keys|..] == [] && result + [] == result;
  }

  /** The walk succeeds exactly when every folder succeeds; otherwise its
      failure is that of the first failing folder. */
  lemma {:induction false} CollectFailure(disk: map<string, Node>, keys: seq<string>,
                                          reader: Reader)
    requires forall k | k in keys :: k in disk
    ensures Collect(disk, keys, reader).Ok? <==> forall k | k in keys :: Each(reader, disk[k]).Ok?
    ensures !Collect(disk, keys, reader).Ok? ==>
      exists i :: 0 <= i < |keys| && Collect(disk, keys, reader) == Each(reader, disk[keys[i]])
        && !Each(reader, disk[keys[i]]).Ok?
        && forall j :: 0 <= j < i ==> Each(reader, disk[keys[j]]).Ok?
    decreases |keys|
  {
    if keys != [] {
      CollectFailure(disk, keys[1..], reader);
      assert keys == [keys[0]] + keys[1..];
      if Each(reader, disk[keys[0]]).Ok? && !Collect(disk, keys[1..], reader).Ok? {
        var i :| 0 <= i < |keys[1..]| && Collect(disk, keys[1..], reader) == Each(reader, disk[keys[1..][i]])
          && !Each(reader, disk[keys[1..][i]]).Ok?
          && forall j :: 0 <= j < i ==> Each(reader, disk[keys[1..][j]]).Ok?;
        assert forall j :: 0 <= j < i + 1 ==> Each(reader, disk[keys[j]]).Ok? by {
          forall j | 0 <= j < i + 1
            ensures Each(reader, disk[keys[j]]).Ok?
          {
            if j > 0 {
              assert keys[j] == keys[1..][j - 1];
            }
          }
        }
        assert keys[i + 1] == keys[1..][i];
      }
    }
  }

  /** The walk reads only the folders it visits. */
  lemma {:induction false} CollectFrame(disk: map<string, Node>, disk': map<string, Node>, keys: seq<string>,
                                        reader: Reader)
    requires forall k | k in keys :: k in disk && k in disk' && disk[k] == disk'[k]
    ensures Collect(disk, keys, reader) == Collect(disk', keys, reader)
    decreases |keys|
  {
    if keys != [] {
      CollectFrame(disk, disk', keys[1..], reader);
    }
  }

  /** A folder that yields nothing can be taken out of the walk. */
  lemma {:induction false} CollectWithout(disk: map<string, Node>, keys: seq<string>, k: string,
                                          reader: Reader)
    requires forall j | j in keys :: j in disk
    requires k in disk && Each(reader, disk[k]) == Ok([])
    ensures Collect(disk, keys, reader) == Collect(disk, Without(keys, k), reader)
    decreases |keys|
  {
    if keys != [] {
      CollectWithout(disk, keys[1..], k, reader);
      if keys[0] != k {
        assert ([keys[0]] + Without(keys[1..], k))[1..] == Without(keys[1..], k);
      } else if Collect(disk, keys[1..], reader).Ok? {
        assert [] + Collect(disk, keys[1..], reader).value == Collect(disk, keys[1..], reader).value;
      }
    }
  }

  /** Dropping a string-valued folder from the file changes nothing a
      reader returns, for any reader that yields nothing for a string. */
  lemma StringFolderSkipped(disk: map<string, Node>, f: string, reader: Reader)
    requires f in disk && disk[f].Str? && Each(reader, disk[f]) == Ok([])
    ensures Collect(disk, Ascending(disk.Keys), reader) == Collect(disk - {f}, Ascending((disk - {f}).Keys), reader)
  {
    assert (disk - {f}).Keys == disk.Keys - {f};
    AscendingRemove(disk.Keys, f);
    CollectWithout(disk, Ascending(disk.Keys), f, reader);
    CollectFrame(disk, disk - {f}, Without(Ascending(disk.Keys), f), reader);
  }

  // ---------------------------------------------------------------------
  // read_installed_apps
  // ---------------------------------------------------------------------

  /** One folder's app IDs: nothing for a string; the keys of its `apps`
      section in ascending order; an abort when `apps` is missing; an error
      when `apps` is not a section of strings. */
  ghost function FolderApps(folder: Node): Outcome<seq<string>>
  {
    match folder
    case Str(_) => Ok([])
    case Section(values) =>
      if APPS !in values then Panic(NO_APPS)
      else
        var apps :- AsStringMap(values[APPS]);
        Ok(Ascending(apps.Keys))
  }

  /** What `read_installed_apps` returns for a decoded document. */
  ghost function InstalledAppsSpec(doc: Document): Outcome<seq<string>>
  {
    var disk :- AsSection(doc.body);
    Collect(disk, Ascending(disk.Keys), InstalledApps)
  }

  method ReadInstalledApps(doc: Document) returns (r: Outcome<seq<string>>)
    ensures r == InstalledAppsSpec(doc)
  {
    var disk :- AsSection(doc.body);
    var folders := SortedKeys(disk);
    r := InstalledAppsOf(disk, folders);
  }

  /** The loops of `read_installed_apps` over the folders `folders`. */
  method InstalledAppsOf(disk: map<string, Node>, folders: seq<string>) returns (r: Outcome<seq<string>>)
    requires forall k | k in folders :: k in disk
    ensures r == Collect(disk, folders, InstalledApps)
  {
    var result := [];
    WalkStart(disk, folders, InstalledApps);
    for i := 0 to |folders|
      invariant Collect(disk, folders, InstalledApps) == Then(result, Collect(disk, folders[i..], InstalledApps))
    {
      var ids := ReadFolderApps(disk[folders[i]]);
      WalkStep(disk, folders, i, InstalledApps, result, ids);
      if !ids.Ok? {
        return ids;
      }
      result := PushAll(result, ids.value);
    }
    WalkDone(disk, folders, InstalledApps, result);
    r := Ok(result);
  }

  /** The body of the outer loop for one folder: its properties, if it is
      a section, and then the keys of its `apps`. */
  method ReadFolderApps(folder: Node) returns (r: Outcome<seq<string>>)
    ensures r == FolderApps(folder)
  {
    r := Ok([]);
    var values := AsSection(folder);
    if values.Ok? {
      if APPS !in values.value {
        return Panic(NO_APPS);
      }
      var apps :- AsStringMap(values.value[APPS]);
      var ids := SortedKeys(apps);
      r := Ok(ids);
    }
  }

  /** Pushing every item of `items`, in order, onto `result`. */
  method PushAll(result: seq<string>, items: seq<string>) returns (r: seq<string>)
    ensures r == result + items
  {
    r := result;
    for j := 0 to |items|
      invariant r == result + items[..j]
    {
      assert items[..j + 1] == items[..j] + [items[j]];
      r := r + [items[j]];
    }
    assert items[..|items|] == items;
  }

  /** The folder holds the app: it is a section whose `apps` section has
      the ID as a key. */
  ghost predicate Holds(folder: Node, id: string)
  {
    folder.Section? && APPS in folder.children && folder.children[APPS].Section?
    && id in folder.children[APPS].children
  }

  /** The visited folders that hold an app. */
  ghost function Holders(disk: map<string, Node>, keys: seq<string>, id: string): set<string>
    requires forall k | k in keys :: k in disk
  {
    set k | k in keys && Holds(disk[k], id)
  }

  /** The first folder, when it is not visited again, adds itself to the
      holders of the rest exactly when it holds the app. */
  lemma HoldersStep(disk: map<string, Node>, keys: seq<string>, id: string)
    requires forall k | k in keys :: k in disk
    requires keys != [] && keys[0] !in keys[1..]
    ensures |Holders(disk, keys, id)| ==
      |Holders(disk, keys[1..], id)| + if Holds(disk[keys[0]], id) then 1 else 0
  {
    var later := Holders(disk, keys[1..], id);
    assert keys[0] !in later;
    if Holds(disk[keys[0]], id) {
      assert Holders(disk, keys, id) == later + {keys[0]};
    } else {
      assert Holders(disk, keys, id) == later;
    }
  }

  lemma {:induction false} CollectAppsCount(disk: map<string, Node>, keys: seq<string>, id: string)
    requires forall k | k in keys :: k in disk
    requires StrictlyAscending(keys)
    requires Collect(disk, keys, InstalledApps).Ok?
    ensures multiset(Collect(disk, keys, InstalledApps).value)[id] == |Holders(disk, keys, id)|
    decreases |keys|
  {
    if keys != [] {
      var head := keys[0];
      var tail := keys[1..];
      FirstNotRepeated(keys);
      CollectAppsCount(disk, tail, id);
      var first := FolderApps(disk[head]).value;
      var rest := Collect(disk, tail, InstalledApps).value;
      assert Collect(disk, keys, InstalledApps).value == first + rest;
      assert multiset(first + rest)[id] == multiset(first)[id] + multiset(rest)[id];
      FolderAppsOnce(disk[head], id);
      HoldersStep(disk, keys, id);
    }
  }

  /** A folder lists an app once when it holds it, and not at all otherwise. */
  lemma FolderAppsOnce(folder: Node, id: string)
    requires FolderApps(folder).Ok?
    ensures multiset(FolderApps(folder).value)[id] == if Holds(folder, id) then 1 else 0
  {
    if folder.Section? {
      AscendingOnce(FolderApps(folder).value, id);
    }
  }

  /** Without de-duplication: an app ID occurs once for every folder that
      holds it. */
  lemma InstalledAppsCount(doc: Document, id: string)
    requires InstalledAppsSpec(doc).Ok?
    ensures multiset(InstalledAppsSpec(doc).value)[id] ==
      |set f | f in doc.body.children && Holds(doc.body.children[f], id)|
  {
    var disk := doc.body.children;
    CollectAppsCount(disk, Ascending(disk.Keys), id);
    assert Holders(disk, Ascending(disk.Keys), id) == (set f | f in disk && Holds(disk[f], id));
  }

  /** An app ID is listed exactly when some folder holds it. */
  lemma InstalledAppsMembers(doc: Document, id: string)
    requires InstalledAppsSpec(doc).Ok?
    ensures id in InstalledAppsSpec(doc).value <==> exists f :: f in doc.body.children && Holds(doc.body.children[f], id)
  {
    InstalledAppsCount(doc, id);
    var holders := set f | f in doc.body.children && Holds(doc.body.children[f], id);
    if exists f :: f in doc.body.children && Holds(doc.body.children[f], id) {
      var f :| f in doc.body.children && Holds(doc.body.children[f], id);
      assert f in holders;
    }
  }

  /** When the reader fails: an error when the document is not a section
      or when the first bad folder (in key order) has an `apps` that is not
      a section of strings; an abort when that folder has no `apps`. */
  lemma InstalledAppsFailure(doc: Document)
    ensures InstalledAppsSpec(doc).Ok? <==>
      doc.body.Section? && forall f | f in doc.body.children ::
        var folder := doc.body.children[f];
        folder.Section? ==> APPS in folder.children && AsStringMap(folder.children[APPS]).Ok?
    ensures doc.body.Section? && (forall f | f in doc.body.children ::
        doc.body.children[f].Section? ==> APPS in doc.body.children[f].children)
      ==> !InstalledAppsSpec(doc).Panic?
    ensures doc.body.Section? && (forall f | f in doc.body.children ::
        doc.body.children[f].Section? ==> (APPS in doc.body.children[f].children ==>
          AsStringMap(doc.body.children[f].children[APPS]).Ok?))
      ==> !InstalledAppsSpec(doc).Err?
  {
    if doc.body.Section? {
      var disk := doc.body.children;
      var keys := Ascending(disk.Keys);
      CollectFailure(disk, keys, InstalledApps);
      forall f | f in disk
        ensures FolderApps(disk[f]).Ok? <==>
          (disk[f].Section? ==> APPS in disk[f].children && AsStringMap(disk[f].children[APPS]).Ok?)
        ensures FolderApps(disk[f]).Panic? <==> disk[f].Section? && APPS !in disk[f].children
      {
        FolderAppsOutcome(disk[f]);
      }
    }
  }

  /** One folder's outcome: an abort exactly when it is a section without
      `apps`, an error exactly when its `apps` is not a section of strings. */
  lemma FolderAppsOutcome(folder: Node)
    ensures FolderApps(folder).Ok? <==>
      (folder.Section? ==> APPS in folder.children && AsStringMap(folder.children[APPS]).Ok?)
    ensures FolderApps(folder).Panic? <==> folder.Section? && APPS !in folder.children
  {
  }

  // ---------------------------------------------------------------------
  // read_paths
  // ---------------------------------------------------------------------

  /** One folder's path: nothing for a string; its `path` string; an abort
      when `path` is missing; an error when it is a section. */
  function FolderPath(folder: Node): Outcome<seq<string>>
  {
    match folder
    case Str(_) => Ok([])
    case Section(values) =>
      if PATH !in values then Panic(NO_PATHS)
      else
        var path :- AsString(values[PATH]);
        Ok([path])
  }

  /** What `read_paths` returns for a decoded document. */
  ghost function PathsSpec(doc: Document): Outcome<seq<string>>
  {
    var disk :- AsSection(doc.body);
    Collect(disk, Ascending(disk.Keys), Paths)
  }

  method ReadPaths(doc: Document) returns (r: Outcome<seq<string>>)
    ensures r == PathsSpec(doc)
  {
    var disk :- AsSection(doc.body);
    var folders := SortedKeys(disk);
    r := PathsOf(disk, folders);
  }

  /** The loops of `read_paths` over the folders `folders`. */
  method PathsOf(disk: map<string, Node>, folders: seq<string>) returns (r: Outcome<seq<string>>)
    requires forall k | k in folders :: k in disk
    ensures r == Collect(disk, folders, Paths)
  {
    var result := [];
    WalkStart(disk, folders, Paths);
    for i := 0 to |folders|
      invariant Collect(disk, folders, Paths) == Then(result, Collect(disk, folders[i..], Paths))
    {
      var path := ReadFolderPath(disk[folders[i]]);
      WalkStep(disk, folders, i, Paths, result, path);
      if !path.Ok? {
        return path;
      }
      result := result + path.value;
    }
    WalkDone(disk, folders, Paths, result);
    r := Ok(result);
  }

  /** The body of the loop for one folder: its properties, if it is a
      section, and then its `path`. */
  method ReadFolderPath(folder: Node) returns (r: Outcome<seq<string>>)
    ensures r == FolderPath(folder)
  {
    r := Ok([]);
    var values := AsSection(folder);
    if values.Ok? {
      if PATH !in values.value {
        return Panic(NO_PATHS);
      }
      var path :- AsString(values.value[PATH]);
      r := Ok([path]);
    }
  }

  /** The keys, in the given order, of the folders that are sections. */
  function SectionKeys(disk: map<string, Node>, keys: seq<string>): (r: seq<string>)
    requires forall k | k in keys :: k in disk
    ensures forall k :: k in r <==> k in keys && disk[k].Section?
  {
    if keys == [] then []
    else (if disk[keys[0]].Section? then [keys[0]] else []) + SectionKeys(disk, keys[1..])
  }

  /** The paths are those of the section folders, one each, in the order
      visited. */
  lemma {:induction false} CollectPathsShape(disk: map<string, Node>, keys: seq<string>)
    requires forall k | k in keys :: k in disk
    requires Collect(disk, keys, Paths).Ok?
    ensures forall k | k in SectionKeys(disk, keys) ::
      PATH in disk[k].children && disk[k].children[PATH].Str?
    ensures |Collect(disk, keys, Paths).value| == |SectionKeys(disk, keys)|
    ensures forall i :: 0 <= i < |SectionKeys(disk, keys)| ==>
      Collect(disk, keys, Paths).value[i] == disk[SectionKeys(disk, keys)[i]].children[PATH].text
    decreases |keys|
  {
    if keys != [] {
      var head := keys[0];
      var tail := keys[1..];
      CollectPathsShape(disk, tail);
      var first := FolderPath(disk[head]).value;
      var rest := Collect(disk, tail, Paths).value;
      var all := Collect(disk, keys, Paths).value;
      assert all == first + rest;
      var sections := SectionKeys(disk, keys);
      var later := SectionKeys(disk, tail);
      if disk[head].Section? {
        assert sections == [head] + later;
        assert first == [disk[head].children[PATH].text];
        forall i | 0 <= i < |sections|
          ensures all[i] == disk[sections[i]].children[PATH].text
        {
          if i > 0 {
            assert sections[i] == later[i - 1] && all[i] == rest[i - 1];
          }
        }
      } else {
        assert sections == later && first == [];
      }
    }
  }

  lemma {:induction false} SectionKeysAscending(disk: map<string, Node>, keys: seq<string>)
    requires forall k | k in keys :: k in disk
    requires StrictlyAscending(keys)
    ensures StrictlyAscending(SectionKeys(disk, keys))
    decreases |keys|
  {
    if keys != [] {
      var head := keys[0];
      var tail := keys[1..];
      assert StrictlyAscending(tail);
      SectionKeysAscending(disk, tail);
      var later := SectionKeys(disk, tail);
      if disk[head].Section? {
        forall j | j in later
          ensures Below(head, j)
        {
          var i :| 1 <= i < |keys| && keys[i] == j;
        }
        var sections := SectionKeys(disk, keys);
        assert sections == [head] + later;
        forall i, j | 0 <= i < j < |sections|
          ensures Below(sections[i], sections[j])
        {
          assert sections[j] == later[j - 1];
          if i > 0 {
            assert sections[i] == later[i - 1];
          }
        }
      }
    }
  }

  /** The visited folders that are sections. */
  ghost function SectionFolders(disk: map<string, Node>, keys: seq<string>): set<string>
    requires forall k | k in keys :: k in disk
  {
    set k | k in keys && disk[k].Section?
  }

  /** The first folder, when it is not visited again, adds itself to the
      section folders of the rest exactly when it is a section. */
  lemma SectionFoldersStep(disk: map<string, Node>, keys: seq<string>)
    requires forall k | k in keys :: k in disk
    requires keys != [] && keys[0] !in keys[1..]
    ensures |SectionFolders(disk, keys)| ==
      |SectionFolders(disk, keys[1..])| + if disk[keys[0]].Section? then 1 else 0
  {
    var later := SectionFolders(disk, keys[1..]);
    assert keys[0] !in later;
    if disk[keys[0]].Section? {
      assert SectionFolders(disk, keys) == later + {keys[0]};
    } else {
      assert SectionFolders(disk, keys) == later;
    }
  }

  /** Listed keys that repeat nothing: the section folders among them are
      as many as the section keys listed. */
  lemma {:induction false} SectionKeysCount(disk: map<string, Node>, keys: seq<string>)
    requires forall k | k in keys :: k in disk
    requires StrictlyAscending(keys)
    ensures |SectionKeys(disk, keys)| == |SectionFolders(disk, keys)|
    decreases |keys|
  {
    if keys != [] {
      FirstNotRepeated(keys);
      SectionKeysCount(disk, keys[1..]);
      SectionFoldersStep(disk, keys);
    }
  }

  /** One path per folder that is a section, in ascending folder-key order. */
  lemma PathsPerFolder(doc: Document)
    requires PathsSpec(doc).Ok?
    ensures var disk := doc.body.children;
      var sections := SectionKeys(disk, Ascending(disk.Keys));
      && StrictlyAscending(sections)
      && |sections| == |set f | f in disk && disk[f].Section?|
      && (forall k | k in sections :: PATH in disk[k].children && disk[k].children[PATH].Str?)
      && |PathsSpec(doc).value| == |sections|
      && forall i :: 0 <= i < |sections| ==> PathsSpec(doc).value[i] == disk[sections[i]].children[PATH].text
  {
    var disk := doc.body.children;
    var keys := Ascending(disk.Keys);
    assert PathsSpec(doc) == Collect(disk, keys, Paths);
    CollectPathsShape(disk, keys);
    SectionKeysAscending(disk, keys);
    SectionKeysCount(disk, keys);
    assert SectionFolders(disk, keys) == (set f | f in disk && disk[f].Section?);
  }

  /** When the reader fails: an error when the document is not a section
      or the first bad folder's `path` is a section; an abort when that
      folder has no `path`. */
  lemma PathsFailure(doc: Document)
    ensures PathsSpec(doc).Ok? <==>
      doc.body.Section? && forall f | f in doc.body.children ::
        var folder := doc.body.children[f];
        folder.Section? ==> PATH in folder.children && folder.children[PATH].Str?
    ensures doc.body.Section? && (forall f | f in doc.body.children ::
        doc.body.children[f].Section? ==> PATH in doc.body.children[f].children)
      ==> !PathsSpec(doc).Panic?
  {
    if doc.body.Section? {
      var disk := doc.body.children;
      var keys := Ascending(disk.Keys);
      CollectFailure(disk, keys, Paths);
      forall f | f in disk
        ensures FolderPath(disk[f]).Ok? <==>
          (disk[f].Section? ==> PATH in disk[f].children && disk[f].children[PATH].Str?)
        ensures FolderPath(disk[f]).Panic? <==> disk[f].Section? && PATH !in disk[f].children
      {
      }
    }
  }

  /** A folder entry that is a string is ignored by both readers. */
  lemma StringFolderIgnored(doc: Document, f: string)
    requires doc.body.Section? && f in doc.body.children && doc.body.children[f].Str?
    ensures var rest := Document(doc.key, Section(doc.body.children - {f}));
      InstalledAppsSpec(doc) == InstalledAppsSpec(rest) && PathsSpec(doc) == PathsSpec(rest)
  {
    StringFolderSkipped(doc.body.children, f, InstalledApps);
    StringFolderSkipped(doc.body.children, f, Paths);
  }
}
