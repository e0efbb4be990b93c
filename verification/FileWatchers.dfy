/** The directory watcher (filewatcher.cc): a two-way map between path names and
    watch descriptors, recursive registration and removal, and the exclude list. */
module FileWatchers {
  import opened CStrings
  import opened Sequences
  import F = Filenames

  const MAX_PATH_LENGTH := 512

  // ----- Directories as readdir and lstat report them

  datatype Node = Directory(readable: bool, entries: Entries) | File | Link | Gone

  /** What readdir returns one by one. */
  datatype Entries = End | More(name: cstring, node: Node, rest: Entries)

  /** opendir succeeds; it fails on the empty path. */
  predicate Opens(dir: cstring, node: Node) {
    dir != "" && node.Directory? && node.readable
  }

  function JoinPath(base: cstring, child: cstring): (path: cstring)
    requires base != ""
    ensures base <= path
  {
    if base[|base| - 1] == '/' then base + child else base + "/" + child
  }

  /** The joined path has the parts of the directory, whether or not it ends with a slash,
      and then the child. */
  lemma JoinedParts(base: cstring, child: cstring)
    requires base != "" && '/' !in child
    ensures var parts := F.Split(base); var last := |parts| - 1;
      F.Split(JoinPath(base, child)) == (if parts[last] == "" then parts[..last] else parts) + [child]
  {
    hide F.Split, F.Join;
    var parts, last := F.Split(base), |F.Split(base)| - 1;
    F.JoinSplit(base);
    JoinedText(parts, child);
    KeptParts(if parts[last] == "" then parts[..last] else parts, child);
  }

  lemma JoinedText(parts: seq<string>, child: string)
    requires parts != [] && F.Join(parts) != "" && NUL !in F.Join(parts) && NUL !in child
    requires forall k :: 0 <= k < |parts| ==> '/' !in parts[k]
    ensures var last := |parts| - 1;
      F.Join((if parts[last] == "" then parts[..last] else parts) + [child]) == JoinPath(F.Join(parts), child)
  {
    hide F.Join;
    var last := |parts| - 1;
    EndsWithSlash(parts);
    F.JoinLast(if parts[last] == "" then parts[..last] else parts, child);
  }

  lemma KeptParts(kept: seq<string>, child: string)
    requires '/' !in child && forall k :: 0 <= k < |kept| ==> '/' !in kept[k]
    ensures F.Split(F.Join(kept + [child])) == kept + [child]
  {
    F.SplitParts(kept + [child]);
  }

  /** A joined text ends with a slash exactly if its last part is empty. */
  lemma EndsWithSlash(parts: seq<string>)
    requires parts != [] && F.Join(parts) != "" && forall k :: 0 <= k < |parts| ==> '/' !in parts[k]
    ensures var last, text := |parts| - 1, F.Join(parts);
      && (text[|text| - 1] == '/' <==> parts[last] == "")
      && (parts[last] == "" ==> last > 0 && text == F.Join(parts[..last]) + "/")
  {
    var last := |parts| - 1;
    assert parts == parts[..last] + [parts[last]];
    F.JoinLast(parts[..last], parts[last]);
  }

  predicate Skipped(name: cstring, excludes: set<cstring>) {
    name == "." || name == ".." || name in excludes
  }

  /** The directories to watch below dir, in the order in which they are registered. */
  function Found(dir: cstring, node: Node, excludes: set<cstring>): (paths: seq<cstring>)
    ensures forall p :: p in paths ==> dir <= p
    decreases node, 0
  {
    if Opens(dir, node) then FoundIn(dir, node.entries, excludes) + [dir] else []
  }

  function FoundIn(dir: cstring, content: Entries, excludes: set<cstring>): (paths: seq<cstring>)
    requires dir != ""
    ensures forall p :: p in paths ==> dir <= p
    decreases content
  {
    match content
    case End => []
    case More(name, node, rest) =>
      FoundAt(dir, name, node, excludes) + FoundIn(dir, rest, excludes)
  }

  function FoundAt(dir: cstring, name: cstring, node: Node, excludes: set<cstring>): (paths: seq<cstring>)
    requires dir != ""
    ensures forall p :: p in paths ==> dir <= p
    decreases node, 1
  {
    if Skipped(name, excludes) then [] else Found(JoinPath(dir, name), node, excludes)
  }

  /** The files handed to the event handlers on the way. */
  function Imported(dir: cstring, node: Node, excludes: set<cstring>): seq<cstring>
    decreases node, 0
  {
    if Opens(dir, node) then ImportedIn(dir, node.entries, excludes) else []
  }

  function ImportedIn(dir: cstring, content: Entries, excludes: set<cstring>): seq<cstring>
    requires dir != ""
    decreases content
  {
    match content
    case End => []
    case More(name, node, rest) =>
      ImportedAt(dir, name, node, excludes) + ImportedIn(dir, rest, excludes)
  }

  function ImportedAt(dir: cstring, name: cstring, node: Node, excludes: set<cstring>): seq<cstring>
    requires dir != ""
    decreases node, 1
  {
    if Skipped(name, excludes) then []
    else if node.File? then [JoinPath(dir, name)] else Imported(JoinPath(dir, name), node, excludes)
  }

  /** No path on the way overflows the buffer it is joined in. */
  predicate Fits(dir: cstring, node: Node, excludes: set<cstring>)
    decreases node
  {
    Opens(dir, node) ==> FitsIn(dir, node.entries, excludes)
  }

  predicate FitsIn(dir: cstring, content: Entries, excludes: set<cstring>)
    requires dir != ""
    decreases content
  {
    match content
    case End => true
    case More(name, node, rest) =>
      && (Skipped(name, excludes) ||
          (|dir| + 1 + |name| < MAX_PATH_LENGTH && Fits(JoinPath(dir, name), node, excludes)))
      && FitsIn(dir, rest, excludes)
  }

  // ----- What is found, without the recursion

  predicate Lists(content: Entries, name: cstring, node: Node) {
    match content
    case End => false
    case More(n, m, rest) => (n == name && m == node) || Lists(rest, name, node)
  }

  function JoinAll(dir: cstring, names: seq<cstring>): (path: cstring)
    requires dir != ""
    ensures dir <= path
    decreases |names|
  {
    if names == [] then dir else JoinAll(JoinPath(dir, names[0]), names[1..])
  }

  /** Following these names from node, every one of them listed and none skipped,
      leads through readable directories to a readable directory. */
  ghost predicate Leads(node: Node, names: seq<cstring>, excludes: set<cstring>)
    decreases |names|
  {
    && node.Directory? && node.readable
    && (names != [] ==>
          names[0] != "." && names[0] != ".." && names[0] !in excludes
          && exists child :: Lists(node.entries, names[0], child) && Leads(child, names[1..], excludes))
  }

  lemma {:induction false} FoundLeads(dir: cstring, node: Node, excludes: set<cstring>, p: cstring) returns (names: seq<cstring>)
    requires dir != "" && p in Found(dir, node, excludes)
    ensures Leads(node, names, excludes) && p == JoinAll(dir, names)
    decreases node
  {
    if p in FoundIn(dir, node.entries, excludes) {
      var name, child, below := FoundInLeads(dir, node.entries, excludes, p);
      names := [name] + below;
      assert names[1..] == below;
    } else {
      names := [];
    }
  }

  lemma {:induction false} FoundInLeads(dir: cstring, content: Entries, excludes: set<cstring>, p: cstring)
      returns (name: cstring, child: Node, names: seq<cstring>)
    requires dir != "" && p in FoundIn(dir, content, excludes)
    ensures Lists(content, name, child) && !Skipped(name, excludes)
    ensures Leads(child, names, excludes) && p == JoinAll(JoinPath(dir, name), names)
    decreases content
  {
    if !Skipped(content.name, excludes) && p in Found(JoinPath(dir, content.name), content.node, excludes) {
      name, child := content.name, content.node;
      names := FoundLeads(JoinPath(dir, name), child, excludes, p);
    } else {
      name, child, names := FoundInLeads(dir, content.rest, excludes, p);
    }
  }

  lemma {:induction false} LeadsFound(dir: cstring, node: Node, excludes: set<cstring>, names: seq<cstring>)
    requires dir != "" && Leads(node, names, excludes)
    ensures JoinAll(dir, names) in Found(dir, node, excludes)
    decreases |names|
  {
    if names != [] {
      var child :| Lists(node.entries, names[0], child) && Leads(child, names[1..], excludes);
      LeadsFound(JoinPath(dir, names[0]), child, excludes, names[1..]);
      ListedFound(dir, node.entries, excludes, names[0], child, JoinAll(dir, names));
    }
  }

  lemma {:induction false} ListedFound(dir: cstring, content: Entries, excludes: set<cstring>, name: cstring, child: Node, p: cstring)
    requires dir != "" && Lists(content, name, child) && !Skipped(name, excludes)
    requires p in Found(JoinPath(dir, name), child, excludes)
    ensures p in FoundIn(dir, content, excludes)
    decreases content
  {
    if !(content.name == name && content.node == child) { ListedFound(dir, content.rest, excludes, name, child, p); }
  }

  /** A path is found exactly if it leads to a readable directory through readable
      directories, none of them with an excluded name. */
  lemma FoundExactly(dir: cstring, node: Node, excludes: set<cstring>, p: cstring)
    requires dir != ""
    ensures p in Found(dir, node, excludes) <==> exists names :: Leads(node, names, excludes) && p == JoinAll(dir, names)
  {
    if p in Found(dir, node, excludes) { var names := FoundLeads(dir, node, excludes, p); }
    if names :| Leads(node, names, excludes) && p == JoinAll(dir, names) { LeadsFound(dir, node, excludes, names); }
  }

  /** These names lead to this entry: each is listed in the one before it, and none is
      skipped; all but the last are readable directories. */
  ghost predicate Meets(node: Node, names: seq<cstring>, excludes: set<cstring>, last: Node)
    decreases |names|
  {
    && names != [] && node.Directory? && node.readable
    && names[0] != "." && names[0] != ".." && names[0] !in excludes
    && exists child :: Lists(node.entries, names[0], child)
                       && if |names| == 1 then child == last else Meets(child, names[1..], excludes, last)
  }

  lemma {:induction false} ImportedMeets(dir: cstring, node: Node, excludes: set<cstring>, p: cstring) returns (names: seq<cstring>)
    requires dir != "" && p in Imported(dir, node, excludes)
    ensures Meets(node, names, excludes, File) && p == JoinAll(dir, names)
    decreases node
  {
    var name, child, below := ImportedInMeets(dir, node.entries, excludes, p);
    names := [name] + below;
    assert names[1..] == below;
    assert Lists(node.entries, names[0], child);
  }

  lemma {:induction false} ImportedInMeets(dir: cstring, content: Entries, excludes: set<cstring>, p: cstring)
      returns (name: cstring, child: Node, names: seq<cstring>)
    requires dir != "" && p in ImportedIn(dir, content, excludes)
    ensures Lists(content, name, child) && !Skipped(name, excludes) && p == JoinAll(JoinPath(dir, name), names)
    ensures if names == [] then child == File else Meets(child, names, excludes, File)
    decreases content
  {
    if p in ImportedAt(dir, content.name, content.node, excludes) {
      name, child := content.name, content.node;
      if child.File? {
        names := [];
      } else {
        names := ImportedMeets(JoinPath(dir, name), child, excludes, p);
      }
    } else {
      name, child, names := ImportedInMeets(dir, content.rest, excludes, p);
    }
  }

  lemma {:induction false} MeetsImported(dir: cstring, node: Node, excludes: set<cstring>, names: seq<cstring>)
    requires dir != "" && Meets(node, names, excludes, File)
    ensures JoinAll(dir, names) in Imported(dir, node, excludes)
    decreases |names|
  {
    var child :| Lists(node.entries, names[0], child)
              && if |names| == 1 then child == File else Meets(child, names[1..], excludes, File);
    var p := JoinAll(dir, names);
    assert p == JoinAll(JoinPath(dir, names[0]), names[1..]);
    if |names| > 1 {
      MeetsImported(JoinPath(dir, names[0]), child, excludes, names[1..]);
    } else {
      assert names[1..] == [];
    }
    assert p in ImportedAt(dir, names[0], child, excludes);
    ListedImported(dir, node.entries, excludes, names[0], child, JoinAll(dir, names));
  }

  lemma {:induction false} ListedImported(dir: cstring, content: Entries, excludes: set<cstring>, name: cstring, child: Node, p: cstring)
    requires dir != "" && Lists(content, name, child) && p in ImportedAt(dir, name, child, excludes)
    ensures p in ImportedIn(dir, content, excludes)
    decreases content
  {
    if !(content.name == name && content.node == child) { ListedImported(dir, content.rest, excludes, name, child, p); }
  }

  /** A path is imported exactly if it leads to a file in this way. */
  lemma ImportedExactly(dir: cstring, node: Node, excludes: set<cstring>, p: cstring)
    requires dir != ""
    ensures p in Imported(dir, node, excludes) <==> exists names :: Meets(node, names, excludes, File) && p == JoinAll(dir, names)
  {
    if p in Imported(dir, node, excludes) { var names := ImportedMeets(dir, node, excludes, p); }
    if names :| Meets(node, names, excludes, File) && p == JoinAll(dir, names) { MeetsImported(dir, node, excludes, names); }
  }

  /** The buffer of 512 characters holds the directory, a slash, the name and the end. */
  predicate Short(dir: cstring, names: seq<cstring>)
    requires dir != "" && names != []
  {
    |JoinAll(dir, names[..|names| - 1])| + 1 + |names[|names| - 1]| < 512
  }

  lemma {:induction false} FitsShort(dir: cstring, node: Node, excludes: set<cstring>, names: seq<cstring>, last: Node)
    requires dir != "" && Fits(dir, node, excludes) && Meets(node, names, excludes, last)
    ensures Short(dir, names)
    decreases |names|
  {
    var child :| Lists(node.entries, names[0], child)
              && if |names| == 1 then child == last else Meets(child, names[1..], excludes, last);
    ListedFits(dir, node.entries, excludes, names[0], child);
    if |names| > 1 {
      FitsShort(JoinPath(dir, names[0]), child, excludes, names[1..], last);
      assert names[..|names| - 1][1..] == names[1..][..|names| - 2];
    }
  }

  lemma {:induction false} ListedFits(dir: cstring, content: Entries, excludes: set<cstring>, name: cstring, child: Node)
    requires dir != "" && FitsIn(dir, content, excludes) && Lists(content, name, child) && !Skipped(name, excludes)
    ensures |dir| + 1 + |name| < 512 && Fits(JoinPath(dir, name), child, excludes)
    decreases content
  {
    if !(content.name == name && content.node == child) { ListedFits(dir, content.rest, excludes, name, child); }
  }

  lemma {:induction false} Overflow(dir: cstring, node: Node, excludes: set<cstring>) returns (names: seq<cstring>, last: Node)
    requires dir != "" && !Fits(dir, node, excludes)
    ensures Meets(node, names, excludes, last) && !Short(dir, names)
    decreases node
  {
    var name, child, below, l := OverflowIn(dir, node.entries, excludes);
    names, last := [name] + below, l;
    assert names[1..] == below && Lists(node.entries, names[0], child);
    if below != [] { assert names[..|names| - 1][1..] == below[..|below| - 1]; }
  }

  lemma {:induction false} OverflowIn(dir: cstring, content: Entries, excludes: set<cstring>)
      returns (name: cstring, child: Node, names: seq<cstring>, last: Node)
    requires dir != "" && !FitsIn(dir, content, excludes)
    ensures Lists(content, name, child) && !Skipped(name, excludes)
    ensures if names == [] then child == last && |dir| + 1 + |name| >= 512
            else Meets(child, names, excludes, last) && !Short(JoinPath(dir, name), names)
    decreases content
  {
    if !FitsIn(dir, content.rest, excludes) {
      name, child, names, last := OverflowIn(dir, content.rest, excludes);
    } else {
      name, child := content.name, content.node;
      names, last := [], child;
      if |dir| + 1 + |name| < 512 { names, last := Overflow(JoinPath(dir, name), child, excludes); }
    }
  }

  /** The registration comes through exactly if every name that is met fits the buffer. */
  lemma FitsExactly(dir: cstring, node: Node, excludes: set<cstring>)
    requires dir != ""
    ensures Fits(dir, node, excludes) <==> forall names, last :: Meets(node, names, excludes, last) ==> Short(dir, names)
  {
    if Fits(dir, node, excludes) {
      forall names, last | Meets(node, names, excludes, last)
        ensures Short(dir, names)
      {
        FitsShort(dir, node, excludes, names, last);
      }
    } else {
      var names, last := Overflow(dir, node, excludes);
      assert Meets(node, names, excludes, last) && !Short(dir, names);
      hide Meets, Short, Fits;
    }
  }

  // ----- The two-way map

  class PathnameWatchDescriptorMap {
    var pathnameToWd: map<cstring, int>
    var wdToPathname: map<int, cstring>

    /** The maps are inverse to each other. */
    ghost predicate Valid()
      reads this
    {
      && (forall p :: p in pathnameToWd ==> pathnameToWd[p] > 0 && pathnameToWd[p] in wdToPathname && wdToPathname[pathnameToWd[p]] == p)
      && (forall wd :: wd in wdToPathname ==> wdToPathname[wd] in pathnameToWd && pathnameToWd[wdToPathname[wd]] == wd)
    }

    constructor ()
      ensures Valid() && pathnameToWd == map[] && wdToPathname == map[]
    {
      pathnameToWd, wdToPathname := map[], map[];
    }

    method Add(pathname: cstring, wd: int)
      modifies this
      ensures pathnameToWd == old(pathnameToWd)[pathname := wd] && wdToPathname == old(wdToPathname)[wd := pathname]
      ensures old(Valid()) && wd > 0 && pathname !in old(pathnameToWd) && wd !in old(wdToPathname) ==> Valid()
    {
      pathnameToWd := pathnameToWd[pathname := wd];
      wdToPathname := wdToPathname[wd := pathname];
    }

    method Remove(wd: int)
      requires Valid()
      modifies this
      ensures Valid()
      ensures wdToPathname == old(wdToPathname) - {wd}
      ensures pathnameToWd == map p | p in old(pathnameToWd) && old(pathnameToWd)[p] != wd :: old(pathnameToWd)[p]
    {
      var pathname := GetPathname(wd);
      if pathname.None? {
        return;
      }
      pathnameToWd := pathnameToWd - {pathname.value};
      wdToPathname := wdToPathname - {wd};
    }

    method GetWatchDescriptor(pathname: cstring) returns (wd: int)
      requires Valid()
      ensures wd == if pathname in pathnameToWd then pathnameToWd[pathname] else 0
      ensures wd > 0 <==> pathname in pathnameToWd
    {
      wd := if pathname in pathnameToWd then pathnameToWd[pathname] else 0;
    }

    method GetPathname(wd: int) returns (pathname: Option<cstring>)
      requires Valid()
      ensures pathname.Some? <==> wd in wdToPathname
      ensures pathname.Some? ==> pathname.value in pathnameToWd && pathnameToWd[pathname.value] == wd
    {
      pathname := if wd in wdToPathname then Some(wdToPathname[wd]) else None;
    }

    /** The descriptors of the paths that start with pathname, in no particular order. */
    method GetSubDirsWatchDescriptor(pathname: cstring) returns (output: seq<int>)
      requires Valid()
      ensures forall wd :: wd in output <==> wd in wdToPathname && pathname <= wdToPathname[wd]
      ensures forall i, j :: 0 <= i < j < |output| ==> output[i] != output[j]
    {
      output := [];
      var rest := pathnameToWd.Keys;
      while rest != {}
        invariant rest <= pathnameToWd.Keys
        invariant forall wd :: wd in output <==> wd in wdToPathname && pathname <= wdToPathname[wd] && wdToPathname[wd] !in rest
        invariant forall i, j :: 0 <= i < j < |output| ==> output[i] != output[j]
        decreases rest
      {
        var path :| path in rest;
        rest := rest - {path};
        if pathname <= path {
          output := output + [pathnameToWd[path]];
        }
      }
    }
  }

  // ----- The watcher

  /** The watches whose path does not start with dir. */
  function Without(watches: map<cstring, int>, dir: cstring): map<cstring, int> {
    map p | p in watches && !(dir <= p) :: watches[p]
  }

  /** A directory name without its ending slash. */
  function Stripped(dir: cstring): cstring {
    if |dir| > 1 && dir[|dir| - 1] == '/' then dir[..|dir| - 1] else dir
  }

  /** One slash at the end does not count, unless it is the whole name. */
  lemma StrippedExactly(dir: cstring)
    ensures dir != "" ==> Stripped(dir + "/") == dir
    ensures dir == "" || dir == "/" || dir[|dir| - 1] != '/' ==> Stripped(dir) == dir
  {
  }

  /** The same paths are watched as before and these, and whatever was watched keeps its descriptor. */
  ghost predicate Watching(before: map<cstring, int>, after: map<cstring, int>, paths: seq<cstring>) {
    && (forall p :: p in after <==> p in before || p in paths)
    && (forall p :: p in before ==> p in after && after[p] == before[p])
  }

  lemma WatchingMore(a: map<cstring, int>, b: map<cstring, int>, c: map<cstring, int>, xs: seq<cstring>, ys: seq<cstring>)
    requires Watching(a, b, xs) && Watching(b, c, ys)
    ensures Watching(a, c, xs + ys)
  {
  }

  lemma WatchingSame(a: map<cstring, int>)
    ensures Watching(a, a, [])
  {
  }

  lemma NotADirectory(dir: cstring, node: Node, excludes: set<cstring>)
    ensures !node.Directory? ==> Found(dir, node, excludes) == [] && Imported(dir, node, excludes) == [] && Fits(dir, node, excludes)
  {
  }

  lemma FreshDescriptor(used: set<int>)
    ensures exists wd :: wd > 0 && wd !in used
  {
    var bound := Above(used);
    assert bound > 0 && bound !in used;
  }

  lemma {:induction false} Above(used: set<int>) returns (bound: int)
    ensures bound > 0 && forall wd :: wd in used ==> wd < bound
    decreases used
  {
    if wd :| wd in used {
      var below := Above(used - {wd});
      assert forall x :: x in used ==> x == wd || x in used - {wd};
      bound := if wd < below then below else wd + 1;
    } else {
      bound := 1;
    }
  }

  class InotifyFileWatcher {
    const watchMap: PathnameWatchDescriptorMap
    var excludeList: set<cstring>

    // The paths handed to HandleImport, and the watches of the kernel.
    var imports: seq<cstring>
    ghost var kernel: set<int>

    ghost predicate Valid()
      reads this, watchMap
    {
      watchMap.Valid() && kernel == watchMap.wdToPathname.Keys
    }

    ghost function Watches(): map<cstring, int>
      reads this, watchMap
    {
      watchMap.pathnameToWd
    }

    constructor ()
      ensures Valid() && fresh(watchMap) && Watches() == map[] && excludeList == {} && imports == []
    {
      watchMap := new PathnameWatchDescriptorMap();
      excludeList, imports, kernel := {}, [], {};
    }

    /** inotify_add_watch on a directory without a watch: a fresh positive descriptor. */
    method AddInotifyWatch(dirName: cstring) returns (wd: int)
      requires Valid()
      modifies `kernel
      ensures wd > 0 && wd !in old(kernel) && kernel == old(kernel) + {wd}
    {
      FreshDescriptor(watchMap.wdToPathname.Keys);
      wd :| wd > 0 && wd !in watchMap.wdToPathname.Keys;
      kernel := kernel + {wd};
    }

    method RemoveInotifyWatch(wd: int)
      modifies `kernel
      ensures kernel == old(kernel) - {wd}
    {
      kernel := kernel - {wd};
    }

    method AddDirectory(dirName: cstring) returns (wd: int)
      requires Valid()
      modifies watchMap, `kernel
      ensures Valid() && Watching(old(Watches()), Watches(), [dirName]) && wd == Watches()[dirName] > 0
    {
      wd := watchMap.GetWatchDescriptor(dirName);
      if wd > 0 {
        return;
      }
      wd := AddInotifyWatch(dirName);
      watchMap.Add(dirName, wd);
    }

    /** alive: the CHECK on path lengths never failed. */
    method AddDirectoryRecursive(dirName: cstring, node: Node) returns (alive: bool)
      requires Valid()
      modifies watchMap, `kernel, `imports
      ensures alive <==> Fits(dirName, node, excludeList)
      ensures alive ==> Valid()
      ensures alive ==> Watching(old(Watches()), Watches(), Found(dirName, node, excludeList))
      ensures alive ==> imports == old(imports) + Imported(dirName, node, excludeList)
      decreases node
    {
      if !Opens(dirName, node) {
        return true;
      }
      alive := AddContents(dirName, node.entries);
      if alive {
        ghost var before := Watches();
        var _ := AddDirectory(dirName);
        WatchingMore(old(Watches()), before, Watches(), FoundIn(dirName, node.entries, excludeList), [dirName]);
      }
    }

    /** The loop over what readdir returns. */
    method AddContents(dirName: cstring, entries: Entries) returns (alive: bool)
      requires Valid() && dirName != ""
      modifies watchMap, `kernel, `imports
      ensures alive <==> FitsIn(dirName, entries, excludeList)
      ensures alive ==> Valid()
      ensures alive ==> Watching(old(Watches()), Watches(), FoundIn(dirName, entries, excludeList))
      ensures alive ==> imports == old(imports) + ImportedIn(dirName, entries, excludeList)
      decreases entries
    {
      hide Watching, Fits, Found, Imported;
      var content := entries;
      ghost var found: seq<cstring>, imported: seq<cstring> := [], [];
      WatchingSame(Watches());
      while content.More?
        invariant content == entries || content < entries
        invariant Valid() && excludeList == old(excludeList)
        invariant FitsIn(dirName, entries, excludeList) <==> FitsIn(dirName, content, excludeList)
        invariant found + FoundIn(dirName, content, excludeList) == FoundIn(dirName, entries, excludeList)
        invariant imported + ImportedIn(dirName, content, excludeList) == ImportedIn(dirName, entries, excludeList)
        invariant Watching(old(Watches()), Watches(), found) && imports == old(imports) + imported
        decreases content
      {
        var name, node := content.name, content.node;
        ghost var foundHere, importedHere := FoundAt(dirName, name, node, excludeList), ImportedAt(dirName, name, node, excludeList);
        Associative(found, foundHere, FoundIn(dirName, content.rest, excludeList));
        Associative(imported, importedHere, ImportedIn(dirName, content.rest, excludeList));
        Associative(old(imports), imported, importedHere);
        Neutral(found);
        Neutral(imported);
        ghost var before := Watches();
        content := content.rest;
        if name == "." || name == ".." || name in excludeList {
          continue;
        }
        if |dirName| + 1 + |name| >= MAX_PATH_LENGTH {
          return false;
        }
        var childPath := JoinPath(dirName, name);
        NotADirectory(childPath, node, excludeList);
        if node.Directory? {
          alive := AddDirectoryRecursive(childPath, node);
          if !alive {
            return;
          }
          WatchingMore(old(Watches()), before, Watches(), found, foundHere);
        } else if node.File? {
          imports := imports + [childPath];
        }
        found, imported := found + foundHere, imported + importedHere;
      }
      Neutral(found);
      Neutral(imported);
      alive := true;
    }

    method RemoveDirectory(wd: int)
      requires Valid()
      modifies watchMap, `kernel
      ensures Valid()
      ensures Watches() == map p | p in old(Watches()) && old(Watches())[p] != wd :: old(Watches())[p]
    {
      RemoveInotifyWatch(wd);
      watchMap.Remove(wd);
    }

    method RemoveDirectoryRecursive(dirName: cstring)
      requires Valid()
      modifies watchMap, `kernel
      ensures Valid() && Watches() == Without(old(Watches()), dirName)
    {
      var wd := watchMap.GetWatchDescriptor(dirName);
      RemoveDirectory(wd);
      var dirs := watchMap.GetSubDirsWatchDescriptor(dirName);
      assert forall p :: p in Watches() ==> (dirName <= p <==> Watches()[p] in dirs);
      RemoveEach(dirs);
    }

    /** The loop over the descriptors of the sub-directories. */
    method RemoveEach(dirs: seq<int>)
      requires Valid()
      modifies watchMap, `kernel
      ensures Valid() && Watches() == map p | p in old(Watches()) && old(Watches())[p] !in dirs :: old(Watches())[p]
    {
      var i := 0;
      while i < |dirs|
        invariant 0 <= i <= |dirs| && Valid()
        invariant Watches() == map p | p in old(Watches()) && old(Watches())[p] !in dirs[..i] :: old(Watches())[p]
      {
        TakeNext(dirs, i);
        RemoveDirectory(dirs[i]);
        i := i + 1;
      }
      TakeAll(dirs);
    }

    method AddExcludeDirectory(dir: cstring)
      modifies `excludeList
      ensures excludeList == old(excludeList) + {Stripped(dir)}
    {
      var length := |dir|;
      if length > 1 && dir[length - 1] == '/' {
        length := length - 1;
      }
      var excludeDir := dir[..length];
      TakeAll(dir);
      if excludeDir !in excludeList {
        excludeList := excludeList + {excludeDir};
      }
    }

    method RemoveExcludeDirectory(dir: cstring)
      modifies `excludeList
      ensures excludeList == old(excludeList) - {Stripped(dir)}
    {
      var length := |dir|;
      if length > 1 && dir[length - 1] == '/' {
        length := length - 1;
      }
      var excludeDir := dir[..length];
      TakeAll(dir);
      if excludeDir in excludeList {
        excludeList := excludeList - {excludeDir};
      }
    }
  }
}
