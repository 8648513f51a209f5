/**
 The directory listing that is built from flat paths: every directory on the way to a file
 under the root, with the set of its immediate children.
 */
module DirectoryTree {
  import opened Options
  import opened PythonText

  type Directories = map<string, set<string>>

  predicate IsDirectory(s: string) {
    s != [] && s[|s| - 1] == '/'
  }

  function RootOf(prefix: string): (root: string)
    ensures IsDirectory(root)
  {
    if IsDirectory(prefix) then prefix else prefix + "/"
  }

  /** `s.split("/")` */
  function Parts(s: string): (parts: seq<string>)
    ensures parts != []
    decreases |s|
  {
    match Find(s, '/', 0)
    case None => [s]
    case Some(i) => [s[..i]] + Parts(s[i + 1..])
  }

  // ----- the loops -----

  /** `directories.setdefault(d, set()).add(child)` */
  function AddChild(dirs: Directories, d: string, child: string): (dirs': Directories) {
    dirs[d := (if d in dirs then dirs[d] else {}) + {child}]
  }

  function SetDefault(dirs: Directories, d: string): (dirs': Directories) {
    if d in dirs then dirs else dirs[d := {}]
  }

  /** The directories on the way down from `current`, and the file in the last of them. */
  function AddParts(dirs: Directories, current: string, parts: seq<string>, path: string): (dirs': Directories)
    requires parts != []
    decreases |parts|
  {
    if |parts| == 1 then AddChild(dirs, current, path)
    else
      var next := current + parts[0] + "/";
      AddParts(SetDefault(AddChild(dirs, current, next), next), next, parts[1..], path)
  }

  function AddPath(dirs: Directories, root: string, path: string): (dirs': Directories) {
    if root <= path then AddParts(dirs, root, Parts(path[|root|..]), path) else dirs
  }

  function AddPaths(root: string, paths: seq<string>): (dirs: Directories) {
    if paths == [] then map[root := {}]
    else AddPath(AddPaths(root, paths[..|paths| - 1]), root, paths[|paths| - 1])
  }

  /** The file entries, in the order of the paths. */
  function Files(root: string, paths: seq<string>): (files: seq<string>) {
    if paths == [] then []
    else
      var last := paths[|paths| - 1];
      Files(root, paths[..|paths| - 1]) + if root <= last then [last] else []
  }

  method DescendTo(dirs0: Directories, root: string, path: string) returns (dirs: Directories)
    requires root <= path
    ensures dirs == AddPath(dirs0, root, path)
  {
    dirs := dirs0;
    var current := root;
    var parts := Parts(path[|root|..]);
    for i := 0 to |parts| - 1
      invariant AddParts(dirs, current, parts[i..], path) == AddPath(dirs0, root, path)
    {
      assert parts[i..][0] == parts[i] && parts[i..][1..] == parts[i + 1..];
      var nextDir := current + parts[i] + "/";
      dirs := SetDefault(AddChild(dirs, current, nextDir), nextDir);
      current := nextDir;
    }
    dirs := AddChild(dirs, current, path);
  }

  method DirectoryEntriesForPaths(paths: seq<string>, prefix: string) returns (files: seq<string>, directories: Directories)
    ensures files == Files(RootOf(prefix), paths)
    ensures directories == AddPaths(RootOf(prefix), paths)
  {
    var root := RootOf(prefix);
    directories := map[root := {}];
    files := [];
    for i := 0 to |paths|
      invariant files == Files(root, paths[..i])
      invariant directories == AddPaths(root, paths[..i])
    {
      assert paths[..i + 1][..i] == paths[..i];
      if root <= paths[i] {
        directories := DescendTo(directories, root, paths[i]);
        files := files + [paths[i]];
      } else {
        assert files + [] == files;
      }
    }
    assert paths[..|paths|] == paths;
  }

  // ----- what the listing is to hold -----

  /** The longest prefix that ends in a slash. */
  function UpToSlash(s: string): (d: string)
    ensures d <= s
  {
    if s == [] || s[|s| - 1] == '/' then s else UpToSlash(s[..|s| - 1])
  }

  /** The directory that a file or a directory lies in. */
  function ParentOf(s: string): (d: string) {
    if s == [] then [] else UpToSlash(s[..|s| - 1])
  }

  /** The directories a path leads through, from the root on. */
  function OnTheWay(root: string, path: string): (s: set<string>) {
    set k | |root| <= k <= |path| && IsDirectory(path[..k]) :: path[..k]
  }

  function DirectoriesOf(root: string, paths: seq<string>): (s: set<string>) {
    if paths == [] then {root}
    else
      var last := paths[|paths| - 1];
      DirectoriesOf(root, paths[..|paths| - 1]) + if root <= last then OnTheWay(root, last) else {}
  }

  function FilesOf(root: string, paths: seq<string>): (s: set<string>) {
    set p | p in paths && root <= p
  }

  /** Everything listed except the root. */
  function Items(root: string, paths: seq<string>): (s: set<string>) {
    (DirectoriesOf(root, paths) - {root}) + FilesOf(root, paths)
  }

  /** The directories are exactly `known`, and each maps to the items that lie in it. */
  ghost predicate Lists(dirs: Directories, known: set<string>, items: set<string>) {
    && dirs.Keys == known
    && (forall x :: x in items ==> ParentOf(x) in known)
    && (forall d :: d in dirs ==> dirs[d] == set x | x in items && ParentOf(x) == d)
  }

  lemma {:induction false} UpToSlashOf(d: string, name: string)
    requires IsDirectory(d) && Without(name, '/')
    ensures UpToSlash(d + name) == d
  {
    if name == [] {
      assert d + name == d;
    } else {
      assert (d + name)[..|d + name| - 1] == d + name[..|name| - 1];
      UpToSlashOf(d, name[..|name| - 1]);
    }
  }

  lemma ParentOfDirectory(d: string, name: string)
    requires IsDirectory(d) && Without(name, '/')
    ensures ParentOf(d + name + "/") == d
  {
    assert (d + name + "/")[..|d + name + "/"| - 1] == d + name;
    UpToSlashOf(d, name);
  }

  lemma ParentOfFile(d: string, name: string)
    requires IsDirectory(d) && Without(name, '/') && name != []
    ensures ParentOf(d + name) == d
  {
    assert (d + name)[..|d + name| - 1] == d + name[..|name| - 1];
    UpToSlashOf(d, name[..|name| - 1]);
  }

  lemma ListsChild(dirs: Directories, known: set<string>, items: set<string>, d: string, child: string)
    requires Lists(dirs, known, items) && d in known && ParentOf(child) == d
    ensures Lists(AddChild(dirs, d, child), known, items + {child})
  {
    var dirs' := AddChild(dirs, d, child);
    forall e | e in dirs' ensures dirs'[e] == set x | x in items + {child} && ParentOf(x) == e {
    }
  }

  lemma ListsDirectory(dirs: Directories, known: set<string>, items: set<string>, d: string)
    requires Lists(dirs, known, items)
    ensures Lists(SetDefault(dirs, d), known + {d}, items)
  {
    var dirs' := SetDefault(dirs, d);
    if d !in dirs {
      assert (set x | x in items && ParentOf(x) == d) == {};
    } else {
      assert known + {d} == known;
    }
  }

  /** The next directory on the way, and the end of the way. */
  lemma OnTheWayStep(current: string, name: string, path: string)
    requires IsDirectory(current) && Without(name, '/') && current <= path
    ensures current + name + "/" <= path ==> OnTheWay(current, path) == {current} + OnTheWay(current + name + "/", path)
    ensures path == current + name ==> OnTheWay(current, path) == {current}
  {
    assert path[..|current|] == current;
    assert current + name <= path ==> forall k :: |current| < k <= |current + name| ==> path[..k][k - 1] == name[k - 1 - |current|];
  }

  lemma PartsStep(s: string)
    ensures Find(s, '/', 0) == None ==> Parts(s) == [s] && Without(s, '/')
    ensures Find(s, '/', 0).Some? ==>
              var i := Find(s, '/', 0).value;
              && |Parts(s)| > 1 && Parts(s)[0] == s[..i] && Parts(s)[1..] == Parts(s[i + 1..])
              && Without(s[..i], '/') && s == s[..i] + "/" + s[i + 1..]
  {
    FindsFirst(s, '/', 0);
    assert s[0..|s|] == s;
    if Find(s, '/', 0).Some? {
      var i := Find(s, '/', 0).value;
      assert s[0..i] == s[..i];
      assert Parts(s)[1..] == Parts(s[i + 1..]);
    }
  }

  function NextName(current: string, path: string): (name: Option<string>)
    requires current <= path
  {
    var rest := path[|current|..];
    match Find(rest, '/', 0)
    case None => None
    case Some(i) => Some(rest[..i])
  }

  /** The last name on the way is the file's. */
  lemma LastName(current: string, path: string)
    requires IsDirectory(current) && current <= path && !IsDirectory(path) && NextName(current, path).None?
    ensures Parts(path[|current|..]) == [path[|current|..]]
    ensures ParentOf(path) == current && OnTheWay(current, path) == {current}
  {
    var rest := path[|current|..];
    assert path == current + rest;
    PartsStep(rest);
    hide OnTheWay, Parts, Find, Without;
    assert rest != [] by {
      assert current + [] == current;
    }
    ParentOfFile(current, rest);
    OnTheWayStep(current, rest, path);
  }

  lemma CutOnce(current: string, name: string, rest: string)
    ensures var next := current + name + "/"; var path := current + (name + "/" + rest);
            path == next + rest && path[|next|..] == rest && path[..|next|] == next
  {
  }

  lemma OnTheWayEnds(current: string, next: string, path: string)
    requires next <= path && IsDirectory(next) && |current| < |next|
    ensures next in OnTheWay(next, path) && current !in OnTheWay(next, path)
  {
    assert path[..|next|] == next;
  }

  /** Any other one is the next directory's. */
  lemma NextDirectory(current: string, path: string)
    requires IsDirectory(current) && current <= path && NextName(current, path).Some?
    ensures var name := NextName(current, path).value; var next := current + name + "/"; var parts := Parts(path[|current|..]);
            && next <= path && IsDirectory(next)
            && |parts| > 1 && parts[0] == name && parts[1..] == Parts(path[|next|..])
            && ParentOf(next) == current
            && OnTheWay(current, path) == {current} + OnTheWay(next, path)
            && next in OnTheWay(next, path) && current !in OnTheWay(next, path)
  {
    var rest := path[|current|..];
    assert path == current + rest;
    PartsStep(rest);
    var name := NextName(current, path).value;
    var next := current + name + "/";
    var i := Find(rest, '/', 0).value;
    hide Parts, Find, Without, OnTheWay, ParentOf;
    CutOnce(current, name, rest[i + 1..]);
    OnTheWayEnds(current, next, path);
    ParentOfDirectory(current, name);
    OnTheWayStep(current, name, path);
  }

  lemma WayAlgebra(known: set<string>, items: set<string>, current: string, next: string, way: set<string>, path: string)
    requires current in known && next in way && current !in way
    ensures known + {next} + way == known + ({current} + way)
    ensures items + {next} + (way - {next}) + {path} == items + (({current} + way) - {current}) + {path}
  {
  }

  /** The loop over the parts lists the directories on the way and the file. */
  lemma {:induction false} AddPartsLists(dirs: Directories, known: set<string>, items: set<string>, current: string, path: string)
    requires Lists(dirs, known, items) && current in known && IsDirectory(current) && current <= path && !IsDirectory(path)
    ensures Lists(AddParts(dirs, current, Parts(path[|current|..]), path),
                  known + OnTheWay(current, path), items + (OnTheWay(current, path) - {current}) + {path})
    decreases |path| - |current|
  {
    hide Lists, OnTheWay, Parts, NextName, IsDirectory, ParentOf, SetDefault, AddChild;
    if NextName(current, path).None? {
      LastName(current, path);
      ListsChild(dirs, known, items, current, path);
      assert known + {current} == known && items + ({current} - {current}) + {path} == items + {path};
    } else {
      NextDirectory(current, path);
      var next := current + NextName(current, path).value + "/";
      ListsChild(dirs, known, items, current, next);
      ListsDirectory(AddChild(dirs, current, next), known, items + {next}, next);
      AddPartsLists(SetDefault(AddChild(dirs, current, next), next), known + {next}, items + {next}, next, path);
      WayAlgebra(known, items, current, next, OnTheWay(next, path), path);
    }
  }

  // ----- the whole listing -----

  predicate NoTrailingSlash(root: string, paths: seq<string>) {
    forall p :: p in paths && root <= p ==> !IsDirectory(p)
  }

  lemma {:induction false} RootIsKnown(root: string, paths: seq<string>)
    ensures root in DirectoriesOf(root, paths)
  {
    if paths != [] {
      RootIsKnown(root, paths[..|paths| - 1]);
    }
  }

  /** The directories are those on the way to a file under the root, and each holds exactly the items that lie in it. */
  lemma {:induction false} ListingIsTree(root: string, paths: seq<string>)
    requires IsDirectory(root) && NoTrailingSlash(root, paths)
    ensures Lists(AddPaths(root, paths), DirectoriesOf(root, paths), Items(root, paths))
  {
    if paths == [] {
      assert Items(root, []) == {};
    } else {
      var init, last := paths[..|paths| - 1], paths[|paths| - 1];
      ListingIsTree(root, init);
      RootIsKnown(root, init);
      assert last in paths;
      assert paths == init + [last];
      if root <= last {
        AddPartsLists(AddPaths(root, init), DirectoriesOf(root, init), Items(root, init), root, last);
      }
      ItemsOfOneMore(root, init, last);
      hide Lists, Items, OnTheWay, AddParts, FilesOf, NoTrailingSlash;
    }
  }

  lemma ItemsOfOneMore(root: string, init: seq<string>, last: string)
    ensures root <= last ==> Items(root, init + [last]) == Items(root, init) + (OnTheWay(root, last) - {root}) + {last}
    ensures !(root <= last) ==> Items(root, init + [last]) == Items(root, init)
    ensures DirectoriesOf(root, init + [last]) == DirectoriesOf(root, init) + if root <= last then OnTheWay(root, last) else {}
    ensures DirectoriesOf(root, init) + {} == DirectoriesOf(root, init)
  {
    var paths := init + [last];
    assert paths[..|paths| - 1] == init;
    assert FilesOf(root, paths) == FilesOf(root, init) + if root <= last then {last} else {};
    hide OnTheWay, FilesOf;
  }

  /** Every directory but the root, and every file, is a child of exactly one listed directory. */
  ghost predicate OneParentEach(dirs: Directories, items: set<string>) {
    && (forall x :: x in items ==> ParentOf(x) in dirs && x in dirs[ParentOf(x)])
    && (forall d, x :: d in dirs && x in dirs[d] ==> x in items && d == ParentOf(x))
  }

  /** That holds exactly when no path under the root ends in a slash: such a path would be a child of itself. */
  lemma OneParentIffNoTrailingSlash(root: string, paths: seq<string>)
    requires IsDirectory(root)
    ensures OneParentEach(AddPaths(root, paths), Items(root, paths)) <==> NoTrailingSlash(root, paths)
  {
    var dirs := AddPaths(root, paths);
    if NoTrailingSlash(root, paths) {
      ListingIsTree(root, paths);
    } else {
      var p :| p in paths && root <= p && IsDirectory(p);
      var i :| 0 <= i < |paths| && paths[i] == p;
      DirectoryListsItself(root, paths, i);
      ParentIsShorter(p);
    }
  }

  lemma {:induction false} ParentIsShorter(s: string)
    requires s != []
    ensures |ParentOf(s)| < |s|
  {
  }

  ghost predicate Grows(dirs: Directories, dirs': Directories) {
    forall d :: d in dirs ==> d in dirs' && dirs[d] <= dirs'[d]
  }

  lemma {:induction false} AddPartsGrows(dirs: Directories, current: string, parts: seq<string>, path: string)
    requires parts != []
    ensures Grows(dirs, AddParts(dirs, current, parts, path))
    decreases |parts|
  {
    if |parts| > 1 {
      var next := current + parts[0] + "/";
      AddPartsGrows(SetDefault(AddChild(dirs, current, next), next), next, parts[1..], path);
    }
  }

  /** A path that ends in a slash becomes a child of the directory of its own name. */
  lemma {:induction false} EndsInItself(dirs: Directories, current: string, path: string)
    requires IsDirectory(current) && current <= path && IsDirectory(path)
    ensures var dirs' := AddParts(dirs, current, Parts(path[|current|..]), path); path in dirs' && path in dirs'[path]
    decreases |path| - |current|
  {
    if NextName(current, path).Some? {
      NextDirectory(current, path);
      var next := current + NextName(current, path).value + "/";
      hide OnTheWay, NextName, Parts, SetDefault, AddChild;
      EndsInItself(SetDefault(AddChild(dirs, current, next), next), next, path);
    } else {
      var rest := path[|current|..];
      PartsStep(rest);
      assert rest == [] ==> path == current;
    }
  }

  lemma {:induction false} DirectoryListsItself(root: string, paths: seq<string>, i: nat)
    requires IsDirectory(root) && i < |paths| && root <= paths[i] && IsDirectory(paths[i])
    ensures var dirs := AddPaths(root, paths); paths[i] in dirs && paths[i] in dirs[paths[i]]
  {
    var init, last := paths[..|paths| - 1], paths[|paths| - 1];
    if i == |paths| - 1 {
      EndsInItself(AddPaths(root, init), root, last);
    } else {
      DirectoryListsItself(root, init, i);
      if root <= last {
        AddPartsGrows(AddPaths(root, init), root, Parts(last[|root|..]), last);
      }
    }
  }

  // ----- the children counts -----

  function ChildrenCount(dirs: Directories, d: string): (n: nat)
    requires d in dirs
  {
    |dirs[d]|
  }

  ghost function SumOfCounts(dirs: Directories, keys: set<string>): (n: nat)
    requires keys <= dirs.Keys
  {
    if keys == {} then 0
    else
      var d :| d in keys;
      ChildrenCount(dirs, d) + SumOfCounts(dirs, keys - {d})
  }

  function ItemsIn(items: set<string>, keys: set<string>): (s: set<string>) {
    set x | x in items && ParentOf(x) in keys
  }

  lemma {:induction false} CountsAddUp(dirs: Directories, known: set<string>, items: set<string>, keys: set<string>)
    requires Lists(dirs, known, items) && keys <= known
    ensures SumOfCounts(dirs, keys) == |ItemsIn(items, keys)|
    decreases |keys|
  {
    if keys == {} {
      assert ItemsIn(items, keys) == {};
    } else {
      forall d | d in keys
        ensures ChildrenCount(dirs, d) + SumOfCounts(dirs, keys - {d}) == |ItemsIn(items, keys)|
      {
        CountsAddUp(dirs, known, items, keys - {d});
        assert dirs[d] !! ItemsIn(items, keys - {d});
        assert dirs[d] + ItemsIn(items, keys - {d}) == ItemsIn(items, keys);
      }
    }
  }

  predicate DistinctPaths(paths: seq<string>) {
    forall i, j :: 0 <= i < j < |paths| ==> paths[i] != paths[j]
  }

  /** The file list holds each path under the root once per time it is given, in the order given, and nothing else. */
  lemma {:induction false} FilesInOrder(root: string, a: seq<string>, path: string, b: seq<string>)
    ensures Files(root, a + [path] + b) == Files(root, a) + (if root <= path then [path] else []) + Files(root, b)
  {
    if b == [] {
      assert a + [path] + b == a + [path] && (a + [path])[..|a|] == a;
    } else {
      var init, last := b[..|b| - 1], b[|b| - 1];
      FilesInOrder(root, a, path, init);
      var all := a + [path] + b;
      assert all[..|all| - 1] == a + [path] + init;
      Regroup(Files(root, a), if root <= path then [path] else [], Files(root, init), if root <= last then [last] else []);
      assert Files(root, all) == Files(root, a + [path] + init) + if root <= last then [last] else [];
    }
  }

  lemma {:induction false} FilesAreDistinct(root: string, paths: seq<string>)
    requires DistinctPaths(paths)
    ensures |Files(root, paths)| == |FilesOf(root, paths)|
  {
    if paths == [] {
      assert FilesOf(root, []) == {};
    } else {
      var init, last := paths[..|paths| - 1], paths[|paths| - 1];
      FilesAreDistinct(root, init);
      assert paths == init + [last];
      assert last !in init;
      assert FilesOf(root, paths) == FilesOf(root, init) + if root <= last then {last} else {};
    }
  }

  lemma {:induction false} KnownAreDirectories(root: string, paths: seq<string>)
    requires IsDirectory(root)
    ensures forall d :: d in DirectoriesOf(root, paths) ==> IsDirectory(d)
  {
    if paths != [] {
      KnownAreDirectories(root, paths[..|paths| - 1]);
    }
  }

  /**
   For distinct paths that do not end in a slash: each directory's children count is the number of its distinct
   immediate children, and the counts add up to the number of entries (files and directories) minus one, the root.
   */
  lemma CountsSumToEntries(paths: seq<string>, prefix: string)
    requires DistinctPaths(paths) && NoTrailingSlash(RootOf(prefix), paths)
    ensures var root := RootOf(prefix); var dirs := AddPaths(root, paths);
            && (forall d :: d in dirs ==> ChildrenCount(dirs, d) == |set x | x in Items(root, paths) && ParentOf(x) == d|)
            && SumOfCounts(dirs, dirs.Keys) == |Files(root, paths)| + |dirs| - 1
  {
    var root := RootOf(prefix);
    var dirs, known, items := AddPaths(root, paths), DirectoriesOf(root, paths), Items(root, paths);
    ListingIsTree(root, paths);
    CountsAddUp(dirs, known, items, known);
    assert ItemsIn(items, known) == items;
    RootIsKnown(root, paths);
    KnownAreDirectories(root, paths);
    FilesAreDistinct(root, paths);
    hide AddPaths, DirectoriesOf;
    assert (known - {root}) !! FilesOf(root, paths);
    assert |known - {root}| == |known| - 1;
    assert |dirs| == |dirs.Keys|;
  }
}
