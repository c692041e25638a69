/** The table of installed apps the window shows: joining the installed
    IDs with the names from the Steam app list and the launch options from
    `localconfig.vdf`, the case-insensitive name filter, the four sort
    orders, and the fallback used when `libraryfolders.vdf` cannot be
    read. */
module AppTable {
  import opened Wrappers
  import opened Text
  import opened KeyValues
  import LocalConfig
  import LibraryFoldersVdf
  import Paths

  /** One installed app: its name and the launch options read from the
      user's configuration. */
  datatype App = App(name: string, launchOptions: string)

  // ---------------------------------------------------------------------
  // Joining IDs with names and launch options
  // ---------------------------------------------------------------------

  /** `properties.get(&id).unwrap_or(&String::new())`. */
  function OptionsOf(properties: map<U32, string>, id: U32): string
  {
    if id in properties then properties[id] else ""
  }

  /** Every listed ID parses as a u32. */
  predicate AllParse(appids: seq<string>)
  {
    forall i | 0 <= i < |appids| :: ParseU32(appids[i]).Ok?
  }

  /** The IDs the list names. */
  ghost function ParsedIds(appids: seq<string>): set<U32>
    requires AllParse(appids)
  {
    set i | 0 <= i < |appids| :: ParseU32(appids[i]).value
  }

  /** The named apps among `ids`, with their launch options. */
  ghost function Join(ids: set<U32>, properties: map<U32, string>, names: map<U32, string>): map<U32, App>
  {
    map id | id in ids && id in names :: App(names[id], OptionsOf(properties, id))
  }

  /** The map `get_installed_apps` builds: insertion into a map makes the
      order and repetition of the list irrelevant; an ID that does not
      parse aborts. */
  ghost function Installed(appids: seq<string>, properties: map<U32, string>, names: map<U32, string>)
    : Outcome<map<U32, App>>
  {
    if AllParse(appids) then Ok(Join(ParsedIds(appids), properties, names))
    else Panic(UNWRAP_FAILED)
  }

  /** `get_installed_apps`. */
  method GetInstalledApps(appids: seq<string>, properties: map<U32, string>, names: map<U32, string>)
    returns (r: Outcome<map<U32, App>>)
    ensures r == Installed(appids, properties, names)
  {
    var apps := map[];
    ghost var seen: set<U32> := {};
    for i := 0 to |appids|
      invariant forall k | 0 <= k < i :: ParseU32(appids[k]).Ok?
      invariant forall id :: id in seen <==> exists k | 0 <= k < i :: ParseU32(appids[k]) == Ok(id)
      invariant apps == Join(seen, properties, names)
    {
      var parsed := ParseU32(appids[i]);
      if !parsed.Ok? {
        assert !AllParse(appids);
        return Panic(UNWRAP_FAILED);
      }
      var appid := parsed.value;
      JoinAdd(seen, appid, properties, names);
      if appid in names {
        apps := apps[appid := App(names[appid], OptionsOf(properties, appid))];
      }
      seen := seen + {appid};
    }
    assert seen == ParsedIds(appids);
    r := Ok(apps);
  }

  /** Listing one more ID adds its app, if it has a name. */
  lemma JoinAdd(ids: set<U32>, id: U32, properties: map<U32, string>, names: map<U32, string>)
    ensures Join(ids + {id}, properties, names) ==
      if id in names then Join(ids, properties, names)[id := App(names[id], OptionsOf(properties, id))]
      else Join(ids, properties, names)
  {
  }

  /** When the list is the decimal form of some IDs, nothing aborts and the
      listed IDs are exactly those. */
  lemma DecimalsParse(appids: seq<string>, ids: seq<U32>)
    requires |appids| == |ids| && forall i | 0 <= i < |ids| :: appids[i] == Decimal(ids[i])
    ensures AllParse(appids)
    ensures ParsedIds(appids) == set id | id in ids
  {
    forall i | 0 <= i < |ids|
      ensures ParseU32(appids[i]) == Ok(ids[i])
    {
      DecimalRoundTrip(ids[i]);
    }
    forall id | id in ids
      ensures id in ParsedIds(appids)
    {
      var i :| 0 <= i < |ids| && ids[i] == id;
      assert ParseU32(appids[i]).value == id;
    }
  }

  /** The join holds exactly the named IDs of the list, and every listed
      ID matters, whatever its spelling. */
  lemma InstalledEntries(appids: seq<string>, properties: map<U32, string>, names: map<U32, string>, i: nat)
    requires i < |appids|
    ensures !Installed(appids, properties, names).Err?
    ensures ParseU32(appids[i]).Ok? && ParseU32(appids[i]).value in names && Installed(appids, properties, names).Ok? ==>
      var id := ParseU32(appids[i]).value;
      id in Installed(appids, properties, names).value &&
      Installed(appids, properties, names).value[id] == App(names[id], OptionsOf(properties, id))
    ensures !ParseU32(appids[i]).Ok? ==> Installed(appids, properties, names) == Panic(UNWRAP_FAILED)
  {
    if AllParse(appids) {
      assert ParseU32(appids[i]).value in ParsedIds(appids);
    }
  }

  // ---------------------------------------------------------------------
  // Filtering by name
  // ---------------------------------------------------------------------

  /** `is_filtered`: an empty filter shows every app; otherwise the
      lower-cased name must contain the trimmed, lower-cased filter. */
  function IsFiltered(filter: string, name: string): bool
  {
    filter == [] || Contains(Lower(name), Lower(Trim(filter)))
  }

  /** The filter holds exactly when it is empty or its trimmed, lower-cased
      text occurs somewhere in the lower-cased name. */
  lemma FilterIff(filter: string, name: string)
    ensures IsFiltered(filter, name) <==>
      filter == [] || exists i :: OccursAt(Lower(name), Lower(Trim(filter)), i)
  {
    ContainsIff(Lower(name), Lower(Trim(filter)));
  }

  /** A filter of only whitespace shows every app. */
  lemma BlankFilterShowsAll(filter: string, name: string)
    requires IsBlank(filter)
    ensures IsFiltered(filter, name)
  {
    assert Lower(Trim(filter)) == [];
    assert StartsWith(Lower(name), []);
  }

  /** Neither the case of the name nor the case of the filter matters. */
  lemma FilterIgnoresCase(filter: string, filter': string, name: string, name': string)
    requires Lower(filter) == Lower(filter') && Lower(name) == Lower(name')
    ensures IsFiltered(filter, name) == IsFiltered(filter', name')
  {
    TrimLower(filter);
    TrimLower(filter');
    assert |filter| == |Lower(filter)| == |filter'|;
  }

  // ---------------------------------------------------------------------
  // Sorting the table
  // ---------------------------------------------------------------------

  /** The sort orders a user can pick. */
  datatype AppSort = IdAscending | IdDescending | NameAscending | NameDescending

  /** One row of the table: an ID and its app. */
  type Row = (U32, App)

  /** Row `x` is shown above row `y`. The name orders compare lower-cased
      names only; rows whose names tie keep the ascending ID order they
      had before the stable sort. */
  predicate Before(sort: AppSort, x: Row, y: Row)
  {
    match sort
    case IdAscending => x.0 < y.0
    case IdDescending => x.0 > y.0
    case NameAscending =>
      Below(Lower(x.1.name), Lower(y.1.name)) || (Lower(x.1.name) == Lower(y.1.name) && x.0 < y.0)
    case NameDescending =>
      Below(Lower(y.1.name), Lower(x.1.name)) || (Lower(x.1.name) == Lower(y.1.name) && x.0 < y.0)
  }

  lemma BeforeIrreflexive(sort: AppSort, x: Row)
    ensures !Before(sort, x, x)
  {
    BelowIrreflexive(Lower(x.1.name));
  }

  lemma BeforeAsymmetric(sort: AppSort, x: Row, y: Row)
    requires Before(sort, x, y)
    ensures !Before(sort, y, x)
  {
    var a, b := Lower(x.1.name), Lower(y.1.name);
    BelowIrreflexive(a);
    if Below(a, b) {
      BelowAsymmetric(a, b);
    }
    if Below(b, a) {
      BelowAsymmetric(b, a);
    }
  }

  lemma BeforeTransitive(sort: AppSort, x: Row, y: Row, z: Row)
    requires Before(sort, x, y) && Before(sort, y, z)
    ensures Before(sort, x, z)
  {
    var a, b, c := Lower(x.1.name), Lower(y.1.name), Lower(z.1.name);
    if sort.NameAscending? {
      if Below(a, b) && Below(b, c) {
        BelowTransitive(a, b, c);
      }
    } else if sort.NameDescending? {
      if Below(c, b) && Below(b, a) {
        BelowTransitive(c, b, a);
      }
    }
  }

  /** Rows with different IDs are always ordered one way or the other. */
  lemma BeforeTotal(sort: AppSort, x: Row, y: Row)
    requires x.0 != y.0
    ensures Before(sort, x, y) || Before(sort, y, x)
  {
    BelowTotal(Lower(x.1.name), Lower(y.1.name));
  }

  /** The rows are the entries of the map. */
  predicate IsListing(rows: seq<Row>, apps: map<U32, App>)
  {
    && (forall i | 0 <= i < |rows| :: rows[i].0 in apps && apps[rows[i].0] == rows[i].1)
    && (forall id | id in apps :: (id, apps[id]) in rows)
  }

  predicate InOrder(sort: AppSort, rows: seq<Row>)
  {
    forall i, j | 0 <= i < j < |rows| :: Before(sort, rows[i], rows[j])
  }

  /** In a listing in order no ID is repeated. */
  lemma InOrderDistinct(sort: AppSort, rows: seq<Row>, apps: map<U32, App>)
    requires IsListing(rows, apps) && InOrder(sort, rows)
    ensures forall i, j | 0 <= i < j < |rows| :: rows[i].0 != rows[j].0
  {
    forall i, j | 0 <= i < j < |rows|
      ensures rows[i].0 != rows[j].0
    {
      if rows[i].0 == rows[j].0 {
        assert rows[i] == rows[j];
        BeforeIrreflexive(sort, rows[i]);
      }
    }
  }

  /** The table for a sort order is determined by the map: two listings of
      it in that order are the same sequence. */
  lemma {:induction false} TableUnique(sort: AppSort, apps: map<U32, App>, a: seq<Row>, b: seq<Row>)
    requires IsListing(a, apps) && InOrder(sort, a)
    requires IsListing(b, apps) && InOrder(sort, b)
    ensures a == b
    decreases |a|
  {
    if b != [] {
      FirstRowsAgree(sort, apps, b, a);
    }
    if a != [] {
      FirstRowsAgree(sort, apps, a, b);
      RestIsListing(sort, a, apps);
      RestIsListing(sort, b, apps);
      TableUnique(sort, apps - {a[0].0}, a[1..], b[1..]);
      assert a == [a[0]] + a[1..] && b == [b[0]] + b[1..];
    }
  }

  /** Two listings in order start with the same row, the one before all
      others. */
  lemma FirstRowsAgree(sort: AppSort, apps: map<U32, App>, a: seq<Row>, b: seq<Row>)
    requires IsListing(a, apps) && InOrder(sort, a)
    requires IsListing(b, apps) && InOrder(sort, b)
    requires a != []
    ensures b != [] && a[0] == b[0]
  {
    assert (a[0].0, apps[a[0].0]) in b;
    assert (b[0].0, apps[b[0].0]) in a;
    if a[0] != b[0] {
      var j :| 0 <= j < |a| && a[j] == b[0];
      var k :| 0 <= k < |b| && b[k] == a[0];
      assert Before(sort, a[0], b[0]) && Before(sort, b[0], a[0]);
      BeforeAsymmetric(sort, a[0], b[0]);
    }
  }

  /** Taking off the first row lists the map without that row's ID. */
  lemma RestIsListing(sort: AppSort, rows: seq<Row>, apps: map<U32, App>)
    requires rows != [] && IsListing(rows, apps) && InOrder(sort, rows)
    ensures IsListing(rows[1..], apps - {rows[0].0}) && InOrder(sort, rows[1..])
  {
    InOrderDistinct(sort, rows, apps);
    var rest := apps - {rows[0].0};
    forall id | id in rest
      ensures (id, rest[id]) in rows[1..]
    {
      var i :| 0 <= i < |rows| && rows[i] == (id, apps[id]);
      assert i != 0;
      assert rows[1..][i - 1] == (id, rest[id]);
    }
  }

  /** The rows of a map in ascending ID order (`apps.into_iter().collect()`). */
  method Entries(apps: map<U32, App>) returns (rows: seq<Row>)
    ensures IsListing(rows, apps) && InOrder(IdAscending, rows)
  {
    var ids := SortedIds(apps.Keys);
    rows := [];
    for i := 0 to |ids|
      invariant |rows| == i
      invariant forall k | 0 <= k < i :: rows[k] == (ids[k], apps[ids[k]])
    {
      rows := rows + [(ids[i], apps[ids[i]])];
    }
    forall id | id in apps
      ensures (id, apps[id]) in rows
    {
      var k :| 0 <= k < |ids| && ids[k] == id;
      assert rows[k] == (id, apps[id]);
    }
  }

  /** The rows in the opposite order (`.rev().collect()`). */
  function Reversed(rows: seq<Row>): (r: seq<Row>)
    ensures |r| == |rows|
    ensures forall i | 0 <= i < |rows| :: r[i] == rows[|rows| - 1 - i]
  {
    if rows == [] then [] else Reversed(rows[1..]) + [rows[0]]
  }

  /** Reversing an ascending listing gives a descending one. */
  lemma ReversedDescending(rows: seq<Row>, apps: map<U32, App>)
    requires IsListing(rows, apps) && InOrder(IdAscending, rows)
    ensures IsListing(Reversed(rows), apps) && InOrder(IdDescending, Reversed(rows))
  {
    var r := Reversed(rows);
    forall id | id in apps
      ensures (id, apps[id]) in r
    {
      var i :| 0 <= i < |rows| && rows[i] == (id, apps[id]);
      assert r[|rows| - 1 - i] == rows[i];
    }
  }

  /** The name order `sort_by` uses: row `x` is greater than row `y`. */
  predicate NameAfter(descending: bool, x: Row, y: Row)
  {
    if descending then Below(Lower(x.1.name), Lower(y.1.name))
    else Below(Lower(y.1.name), Lower(x.1.name))
  }

  function NameSort(descending: bool): AppSort
  {
    if descending then NameDescending else NameAscending
  }

  /** Comparing a row with a later-inserted one (larger ID) by name alone
      decides the table order. */
  lemma NameAfterDecides(descending: bool, x: Row, y: Row)
    requires x.0 < y.0
    ensures Before(NameSort(descending), x, y) <==> !NameAfter(descending, x, y)
    ensures Before(NameSort(descending), y, x) <==> NameAfter(descending, x, y)
  {
    var a, b := Lower(x.1.name), Lower(y.1.name);
    BelowTotal(a, b);
    BelowIrreflexive(a);
    if Below(a, b) {
      BelowAsymmetric(a, b);
    }
  }

  /** `v.sort_by(...)` by lower-cased name: a stable insertion sort, which
      only moves a row past rows whose names compare strictly greater. */
  method SortByName(a: array<Row>, descending: bool)
    modifies a
    requires forall i, j | 0 <= i < j < a.Length :: a[i].0 < a[j].0
    ensures multiset(a[..]) == multiset(old(a[..]))
    ensures InOrder(NameSort(descending), a[..])
  {
    for i := 0 to a.Length
      invariant multiset(a[..]) == multiset(old(a[..]))
      invariant forall k, l | 0 <= k < l < i :: Before(NameSort(descending), a[k], a[l])
      invariant forall k, l | 0 <= k < i <= l < a.Length :: a[k].0 < a[l].0
      invariant forall k, l | i <= k < l < a.Length :: a[k].0 < a[l].0
    {
      Insert(a, i, descending);
    }
  }

  /** Moves `a[i]` down into the sorted prefix `a[..i]`. */
  method Insert(a: array<Row>, i: nat, descending: bool)
    modifies a
    requires i < a.Length
    requires forall k, l | 0 <= k < l < i :: Before(NameSort(descending), a[k], a[l])
    requires forall k | 0 <= k < i :: a[k].0 < a[i].0
    ensures multiset(a[..]) == multiset(old(a[..]))
    ensures forall k, l | 0 <= k < l <= i :: Before(NameSort(descending), a[k], a[l])
    ensures forall k | 0 <= k <= i :: a[k].0 <= old(a[i].0)
    ensures forall k | i < k < a.Length :: a[k] == old(a[k])
  {
    var sort := NameSort(descending);
    var x := a[i];
    var j := i;
    while j > 0 && NameAfter(descending, a[j - 1], x)
      invariant j <= i
      invariant Inserting(sort, a[..], i, j, x)
      invariant multiset(a[..]) == multiset(old(a[..]))
      invariant forall k | i < k < a.Length :: a[k] == old(a[k])
    {
      ghost var s := a[..];
      InsertSwap(descending, s, i, j, x);
      a[j - 1], a[j] := a[j], a[j - 1];
      assert a[..] == s[j - 1 := x][j := s[j - 1]];
      j := j - 1;
    }
    InsertDone(descending, a[..], i, j, x);
  }

  /** Row `x` is at `j` on its way down the first `i + 1` rows: the other
      rows keep their order, the rows after `x` belong after it, and `x`
      has the largest ID. */
  ghost predicate Inserting(sort: AppSort, s: seq<Row>, i: nat, j: nat, x: Row)
  {
    && j <= i < |s| && s[j] == x
    && (forall k, l | 0 <= k < l <= i && k != j && l != j :: Before(sort, s[k], s[l]))
    && (forall l | j < l <= i :: Before(sort, x, s[l]))
    && (forall k | 0 <= k <= i && k != j :: s[k].0 < x.0)
  }

  /** Swapping `x` with a row whose name is greater keeps the insertion
      going one place further down. */
  lemma InsertSwap(descending: bool, s: seq<Row>, i: nat, j: nat, x: Row)
    requires Inserting(NameSort(descending), s, i, j, x)
    requires 0 < j && NameAfter(descending, s[j - 1], x)
    ensures Inserting(NameSort(descending), s[j - 1 := x][j := s[j - 1]], i, j - 1, x)
    ensures multiset(s[j - 1 := x][j := s[j - 1]]) == multiset(s)
  {
    var sort := NameSort(descending);
    var t := s[j - 1 := x][j := s[j - 1]];
    NameAfterDecides(descending, s[j - 1], x);
    forall k, l | 0 <= k < l <= i && k != j - 1 && l != j - 1
      ensures Before(sort, t[k], t[l])
    {
      if l == j {
        assert t[l] == s[j - 1] && t[k] == s[k];
      } else if k == j {
        assert t[k] == s[j - 1] && t[l] == s[l];
      } else {
        assert t[k] == s[k] && t[l] == s[l];
      }
    }
    SwapPermutes(s, j);
  }

  lemma SwapPermutes(s: seq<Row>, j: nat)
    requires 0 < j < |s|
    ensures multiset(s[j - 1 := s[j]][j := s[j - 1]]) == multiset(s)
  {
    var u := s[j - 1 := s[j]];
    assert multiset(u) == multiset(s) - multiset{s[j - 1]} + multiset{s[j]};
    assert multiset(u[j := s[j - 1]]) == multiset(u) - multiset{s[j]} + multiset{s[j - 1]};
  }

  /** Once `x` meets a row whose name is not greater, or the top, the first
      `i + 1` rows are in order. */
  lemma InsertDone(descending: bool, s: seq<Row>, i: nat, j: nat, x: Row)
    requires Inserting(NameSort(descending), s, i, j, x)
    requires j == 0 || !NameAfter(descending, s[j - 1], x)
    ensures forall k, l | 0 <= k < l <= i :: Before(NameSort(descending), s[k], s[l])
    ensures forall k | 0 <= k <= i :: s[k].0 <= x.0
  {
    var sort := NameSort(descending);
    if j > 0 {
      NameAfterDecides(descending, s[j - 1], x);
      forall k | 0 <= k < j
        ensures Before(sort, s[k], x)
      {
        if k < j - 1 {
          BeforeTransitive(sort, s[k], s[j - 1], x);
        }
      }
    }
  }

  /** `sort_apps`: the map's entries, each once, in the chosen order. */
  method SortApps(sort: AppSort, apps: map<U32, App>) returns (rows: seq<Row>)
    ensures IsListing(rows, apps) && InOrder(sort, rows)
  {
    var ascending := Entries(apps);
    match sort {
      case IdAscending =>
        rows := ascending;
      case IdDescending =>
        ReversedDescending(ascending, apps);
        rows := Reversed(ascending);
      case NameAscending =>
        rows := SortedByName(ascending, apps, false);
      case NameDescending =>
        rows := SortedByName(ascending, apps, true);
    }
  }

  /** Collects the ascending rows into a vector and sorts it by name. */
  method SortedByName(ascending: seq<Row>, apps: map<U32, App>, descending: bool) returns (rows: seq<Row>)
    requires IsListing(ascending, apps) && InOrder(IdAscending, ascending)
    ensures IsListing(rows, apps) && InOrder(NameSort(descending), rows)
  {
    var v := new Row[|ascending|](i requires 0 <= i < |ascending| => ascending[i]);
    assert v[..] == ascending;
    SortByName(v, descending);
    rows := v[..];
    SameElements(ascending, rows, apps);
  }

  /** A rearrangement of a listing is a listing. */
  lemma SameElements(before: seq<Row>, after: seq<Row>, apps: map<U32, App>)
    requires IsListing(before, apps) && multiset(after) == multiset(before)
    ensures IsListing(after, apps)
  {
    forall i | 0 <= i < |after|
      ensures after[i].0 in apps && apps[after[i].0] == after[i].1
    {
      assert after[i] in multiset(before);
    }
    forall id | id in apps
      ensures (id, apps[id]) in after
    {
      assert (id, apps[id]) in multiset(after);
    }
  }

  // ---------------------------------------------------------------------
  // Loading the table
  // ---------------------------------------------------------------------

  /** `read_launch_options` on a path: a file that cannot be read or
      decoded is an error. */
  ghost function LaunchOptionsAt(files: map<string, Document>, path: string): Outcome<map<U32, string>>
  {
    if path in files then LocalConfig.ReadSpec(files[path]) else Err(NotFound)
  }

  /** `read_installed_apps` on a path. */
  ghost function InstalledAppsAt(files: map<string, Document>, path: string): Outcome<seq<string>>
  {
    if path in files then LibraryFoldersVdf.InstalledAppsSpec(files[path]) else Err(NotFound)
  }

  /** The launch options `update_apps` works with: none when the file
      cannot be read (`unwrap_or(BTreeMap::default())`). */
  ghost function PropertiesAt(files: map<string, Document>, path: string): map<U32, string>
  {
    var read := LaunchOptionsAt(files, path);
    if read.Ok? then read.value else map[]
  }

  /** What `update_apps` loads: the installed IDs from the library file
      next to the user's file or, when that cannot be read, the IDs that
      have launch options; then the join. An abort in the library reader
      aborts the load. */
  ghost function UpdateSpec(files: map<string, Document>, localconfig: string, names: map<U32, string>)
    : Outcome<map<U32, App>>
  {
    var properties := PropertiesAt(files, localconfig);
    var installed := InstalledAppsAt(files, Paths.LibraryFoldersPath(localconfig));
    if installed.Panic? then Panic(installed.message)
    else if installed.Ok? then Installed(installed.value, properties, names)
    else Ok(Join(properties.Keys, properties, names))
  }

  /** `update_apps`. The files it can read are given, decoded, by path;
      the backup copy it makes first is not modelled. */
  method UpdateApps(files: map<string, Document>, localconfig: string, names: map<U32, string>)
    returns (r: Outcome<map<U32, App>>)
    ensures r == UpdateSpec(files, localconfig, names)
  {
    var properties := ReadProperties(files, localconfig);
    var installed := ReadLibrary(files, localconfig);
    var appids;
    if installed.Panic? {
      return Panic(installed.message);
    } else if installed.Ok? {
      appids := installed.value;
    } else {
      var ids := SortedIds(properties.Keys);
      appids := seq(|ids|, i requires 0 <= i < |ids| => Decimal(ids[i]));
      DecimalsParse(appids, ids);
      assert ParsedIds(appids) == properties.Keys;
    }
    r := GetInstalledApps(appids, properties, names);
  }

  /** `read_launch_options(path).unwrap_or(BTreeMap::default())`. */
  method ReadProperties(files: map<string, Document>, path: string) returns (properties: map<U32, string>)
    ensures properties == PropertiesAt(files, path)
  {
    properties := map[];
    if path in files {
      var read := LocalConfig.ReadLaunchOptions(files[path]);
      if read.Ok? {
        properties := read.value;
      }
    }
  }

  /** `read_installed_apps` on the path `config_dir` gives. */
  method ReadLibrary(files: map<string, Document>, localconfig: string) returns (installed: Outcome<seq<string>>)
    ensures installed == InstalledAppsAt(files, Paths.LibraryFoldersPath(localconfig))
  {
    var libraryFolders := Paths.ConfigDir(localconfig);
    var path := libraryFolders.ToText();
    installed := Err(NotFound);
    if path in files {
      installed := LibraryFoldersVdf.ReadInstalledApps(files[path]);
    }
  }

  /** When the library file cannot be read, the load never aborts: the
      table holds every app with launch options that has a name, with
      those launch options. */
  lemma FallbackToLaunchOptions(files: map<string, Document>, localconfig: string, names: map<U32, string>)
    requires InstalledAppsAt(files, Paths.LibraryFoldersPath(localconfig)).Err?
    ensures var properties := PropertiesAt(files, localconfig);
      var r := UpdateSpec(files, localconfig, names);
      && r.Ok?
      && (forall id :: id in r.value <==> id in properties && id in names)
      && (forall id | id in r.value :: r.value[id] == App(names[id], properties[id]))
  {
  }
}
