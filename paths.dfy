/** Unix paths as `std::path` sees them: an optional root followed by the
    path's components, and the `PathBuf` that `config_dir` edits in place
    to find `libraryfolders.vdf` next to a user's `localconfig.vdf`. */
module Paths {

  const SEPARATOR := '/'
  const CUR_DIR := "."
  const CONFIG := "config"
  const LIBRARY_FOLDERS := "libraryfolders.vdf"

  /** The path starts at the root directory. */
  predicate IsRooted(s: string)
  {
    |s| > 0 && s[0] == SEPARATOR
  }

  /** The text between separators, in order (empty pieces included). */
  function Segments(s: string): (r: seq<string>)
    ensures |r| >= 1
    ensures forall i :: 0 <= i < |r| ==> SEPARATOR !in r[i]
  {
    if s == [] then [[]]
    else
      var rest := Segments(s[1..]);
      if s[0] == SEPARATOR then [[]] + rest
      else [[s[0]] + rest[0]] + rest[1..]
  }

  /** A normal component: neither empty nor `.`, and free of separators. */
  predicate IsNormal(c: string)
  {
    c != [] && c != CUR_DIR && SEPARATOR !in c
  }

  /** The segments that are components: empty and `.` segments are dropped. */
  function Normal(segments: seq<string>): (r: seq<string>)
    ensures forall i :: 0 <= i < |r| ==> r[i] in segments && r[i] != [] && r[i] != CUR_DIR
  {
    if segments == [] then []
    else if segments[0] == [] || segments[0] == CUR_DIR then Normal(segments[1..])
    else [segments[0]] + Normal(segments[1..])
  }

  /** `Path::components` after the root: repeated separators and `.`
      segments vanish, except a `.` that starts a relative path. */
  function Components(s: string): seq<string>
  {
    var segments := Segments(s);
    if !IsRooted(s) && segments[0] == CUR_DIR then [CUR_DIR] + Normal(segments[1..])
    else Normal(segments)
  }

  /** Components as `Components` produces them. */
  predicate WellFormed(rooted: bool, comps: seq<string>)
  {
    forall i :: 0 <= i < |comps| ==>
      IsNormal(comps[i]) || (i == 0 && !rooted && comps[i] == CUR_DIR)
  }

  /** The components joined by separators. */
  function Join(comps: seq<string>): string
  {
    if comps == [] then []
    else if |comps| == 1 then comps[0]
    else comps[0] + [SEPARATOR] + Join(comps[1..])
  }

  /** The text of a path: the root, then the components. */
  function Render(rooted: bool, comps: seq<string>): string
  {
    (if rooted then [SEPARATOR] else []) + Join(comps)
  }

  lemma {:induction false} SegmentsOfPiece(c: string)
    requires SEPARATOR !in c
    ensures Segments(c) == [c]
  {
    if c != [] {
      SegmentsOfPiece(c[1..]);
      assert [c[0]] + c[1..] == c;
    }
  }

  lemma {:induction false} SegmentsAfterPiece(c: string, rest: string)
    requires SEPARATOR !in c
    ensures Segments(c + [SEPARATOR] + rest) == [c] + Segments(rest)
  {
    if c == [] {
      assert c + [SEPARATOR] + rest == [SEPARATOR] + rest;
      assert ([SEPARATOR] + rest)[1..] == rest;
    } else {
      SegmentsAfterPiece(c[1..], rest);
      assert (c + [SEPARATOR] + rest)[1..] == c[1..] + [SEPARATOR] + rest;
      assert [c[0]] + c[1..] == c;
    }
  }

  /** Splitting joined pieces gives the pieces back. */
  lemma {:induction false} SegmentsOfJoin(comps: seq<string>)
    requires comps != [] && forall i :: 0 <= i < |comps| ==> SEPARATOR !in comps[i]
    ensures Segments(Join(comps)) == comps
  {
    if |comps| == 1 {
      SegmentsOfPiece(comps[0]);
    } else {
      SegmentsOfJoin(comps[1..]);
      SegmentsAfterPiece(comps[0], Join(comps[1..]));
    }
  }

  lemma {:induction false} NormalKeeps(comps: seq<string>)
    requires forall i :: 0 <= i < |comps| ==> IsNormal(comps[i])
    ensures Normal(comps) == comps
  {
    if comps != [] {
      NormalKeeps(comps[1..]);
    }
  }

  /** Parsing the text of a well-formed path gives back its root and its
      components. */
  lemma RenderRoundTrip(rooted: bool, comps: seq<string>)
    requires WellFormed(rooted, comps)
    ensures IsRooted(Render(rooted, comps)) == rooted
    ensures Components(Render(rooted, comps)) == comps
  {
    var text := Render(rooted, comps);
    if comps == [] {
      RenderEmpty(rooted);
    } else {
      SegmentsOfJoin(comps);
      assert Join(comps)[0] == comps[0][0] by {
        if |comps| > 1 {
          assert Join(comps) == comps[0] + ([SEPARATOR] + Join(comps[1..]));
        }
      }
      NormalKeeps(comps[1..]);
      if rooted {
        assert text == [SEPARATOR] + Join(comps);
        assert text[1..] == Join(comps);
        NormalKeeps(comps);
      } else {
        assert text == Join(comps);
        if comps[0] != CUR_DIR {
          NormalKeeps(comps);
        }
      }
    }
  }

  /** The root alone, or the empty path, has no components. */
  lemma RenderEmpty(rooted: bool)
    ensures IsRooted(Render(rooted, [])) == rooted
    ensures Components(Render(rooted, [])) == []
  {
    if rooted {
      assert Render(rooted, []) == [SEPARATOR];
      var empty: seq<string> := [[], []];
      assert Segments([SEPARATOR]) == empty;
      assert empty[1..] == [[]] && Normal(empty[1..]) == [];
    } else {
      assert Render(rooted, []) == [];
    }
  }

  /** The components `Components` yields are well formed. */
  lemma ComponentsWellFormed(s: string)
    ensures WellFormed(IsRooted(s), Components(s))
  {
    var segments := Segments(s);
    if !IsRooted(s) && segments[0] == CUR_DIR {
      NormalAreNormal(segments[1..]);
      var comps := Components(s);
      assert forall i | 0 < i < |comps| :: comps[i] == Normal(segments[1..])[i - 1];
    } else {
      NormalAreNormal(segments);
    }
  }

  lemma NormalAreNormal(segments: seq<string>)
    requires forall i | 0 <= i < |segments| :: SEPARATOR !in segments[i]
    ensures forall i | 0 <= i < |Normal(segments)| :: IsNormal(Normal(segments)[i])
  {
    var r := Normal(segments);
    forall i | 0 <= i < |r|
      ensures IsNormal(r[i])
    {
      var j :| 0 <= j < |segments| && segments[j] == r[i];
    }
  }

  /** The components after `PathBuf::push(p)`: an absolute `p` replaces the
      path; a relative one is appended (its leading `.` then vanishes,
      unless the path was empty). */
  function Pushed(rooted: bool, comps: seq<string>, p: string): (bool, seq<string>)
  {
    if IsRooted(p) then (true, Components(p))
    else if !rooted && comps == [] then (false, Components(p))
    else
      var added := Components(p);
      (rooted, comps + if added != [] && added[0] == CUR_DIR then added[1..] else added)
  }

  /** A single normal name is one component. */
  lemma NameComponents(name: string)
    requires IsNormal(name)
    ensures !IsRooted(name) && Components(name) == [name]
  {
    SegmentsOfPiece(name);
  }

  /** Pushing a single normal name appends it as one component. */
  lemma PushName(rooted: bool, comps: seq<string>, name: string)
    requires IsNormal(name)
    ensures Pushed(rooted, comps, name) == (rooted, comps + [name])
  {
    NameComponents(name);
    assert [] + [name] == [name];
  }

  /** The two names `config_dir` pushes are single components. */
  lemma NamesNormal()
    ensures IsNormal(CONFIG) && IsNormal(LIBRARY_FOLDERS)
  {
  }

  lemma AppendTwo(parent: seq<string>, a: string, b: string)
    ensures parent + [a] + [b] == parent + [a, b]
  {
  }

  /** Four pops take four components off, or all there are. */
  lemma PopFour(c0: seq<string>, c1: seq<string>, c2: seq<string>, c3: seq<string>, c4: seq<string>)
    requires c1 == if c0 != [] then c0[..|c0| - 1] else c0
    requires c2 == if c1 != [] then c1[..|c1| - 1] else c1
    requires c3 == if c2 != [] then c2[..|c2| - 1] else c2
    requires c4 == if c3 != [] then c3[..|c3| - 1] else c3
    ensures c4 == if |c0| >= 4 then c0[..|c0| - 4] else []
  {
    if |c0| >= 4 {
      assert c2 == c0[..|c0| - 2];
      assert c3 == c0[..|c0| - 3];
    } else {
      assert |c1| <= 2 && |c2| <= 1 && c3 == [];
    }
  }

  /** A `std::path::PathBuf`, kept as its root flag and components. */
  class PathBuf {
    var rooted: bool
    var comps: seq<string>

    /** `PathBuf::from(s)`. */
    constructor (s: string)
      ensures rooted == IsRooted(s) && comps == Components(s)
    {
      rooted := IsRooted(s);
      comps := Components(s);
    }

    /** The path's text, as `to_str` gives it. */
    function ToText(): string
      reads this
    {
      Render(rooted, comps)
    }

    /** `PathBuf::pop`: drops the last component and reports whether there
      was one; the root alone, or an empty path, has no parent. */
    method Pop() returns (popped: bool)
      modifies this
      ensures popped == (old(comps) != [])
      ensures rooted == old(rooted)
      ensures comps == if popped then old(comps)[..|old(comps)| - 1] else old(comps)
    {
      popped := comps != [];
      if popped {
        comps := comps[..|comps| - 1];
      }
    }

    /** `PathBuf::push`. */
    method Push(p: string)
      modifies this
      ensures (rooted, comps) == Pushed(old(rooted), old(comps), p)
    {
      if IsRooted(p) {
        rooted := true;
        comps := Components(p);
      } else if !rooted && comps == [] {
        comps := Components(p);
      } else {
        var added := Components(p);
        if added != [] && added[0] == CUR_DIR {
          added := added[1..];
        }
        comps := comps + added;
      }
    }
  }

  /** The path `config_dir` computes: four components up, then
      `config/libraryfolders.vdf`. */
  function ConfigDirComponents(comps: seq<string>): seq<string>
  {
    (if |comps| >= 4 then comps[..|comps| - 4] else []) + [CONFIG, LIBRARY_FOLDERS]
  }

  /** `config_dir`: from `<steam>/userdata/<user>/config/localconfig.vdf`
      to `<steam>/config/libraryfolders.vdf`. */
  method ConfigDir(localconfig: string) returns (path: PathBuf)
    ensures fresh(path)
    ensures path.rooted == IsRooted(localconfig)
    ensures path.comps == ConfigDirComponents(Components(localconfig))
  {
    path := new PathBuf(localconfig);
    ghost var c0 := path.comps;
    var popped := path.Pop();
    ghost var c1 := path.comps;
    popped := path.Pop();
    ghost var c2 := path.comps;
    popped := path.Pop();
    ghost var c3 := path.comps;
    popped := path.Pop();
    PopFour(c0, c1, c2, c3, path.comps);
    ghost var parent := path.comps;
    NamesNormal();
    PushName(path.rooted, path.comps, CONFIG);
    path.Push(CONFIG);
    PushName(path.rooted, path.comps, LIBRARY_FOLDERS);
    path.Push(LIBRARY_FOLDERS);
    AppendTwo(parent, CONFIG, LIBRARY_FOLDERS);
  }

  /** The text of the path `config_dir` returns. */
  function LibraryFoldersPath(localconfig: string): string
  {
    Render(IsRooted(localconfig), ConfigDirComponents(Components(localconfig)))
  }

  /** For a file in Steam's user-data layout the result is the library
      file of the same Steam installation, and it parses back to it. */
  lemma ConfigDirOfUserData(localconfig: string, steam: seq<string>, user: string)
    requires Components(localconfig) == steam + ["userdata", user, "config", "localconfig.vdf"]
    ensures ConfigDirComponents(Components(localconfig)) == steam + [CONFIG, LIBRARY_FOLDERS]
    ensures Components(LibraryFoldersPath(localconfig)) == steam + [CONFIG, LIBRARY_FOLDERS]
  {
    var comps := Components(localconfig);
    assert comps[..|comps| - 4] == steam;
    ComponentsWellFormed(localconfig);
    var result := steam + [CONFIG, LIBRARY_FOLDERS];
    assert WellFormed(IsRooted(localconfig), result) by {
      forall i | 0 <= i < |result|
        ensures IsNormal(result[i]) || (i == 0 && !IsRooted(localconfig) && result[i] == CUR_DIR)
      {
        if i < |steam| {
          assert result[i] == comps[i];
        } else {
          NamesNormal();
        }
      }
    }
    RenderRoundTrip(IsRooted(localconfig), result);
  }
}
