/** Requests to the watcher (filewatcherrequesthandler.cc): the handler turns each
    request into commands on a queue, the worker applies them one by one. */
module FileWatcherRequests {
  import opened CStrings
  import opened Sequences
  import opened FileWatchers
  import T = TagEntries
  import Tables = TagsTables
  import F = Filenames

  datatype WatcherCommandCode = ADD | REMOVE | EXCLUDE | REMOVE_EXCLUDE
  datatype WatcherCommand = WatcherCommand(code: WatcherCommandCode, directory: string)

  // ----- What the commands mean

  /** The watched paths, the exclude list, and the files imported so far. */
  datatype View = View(watched: set<cstring>, excludes: set<cstring>, imports: seq<cstring>)

  /** One command; node is what the disk holds under its directory when it is
      applied. None: the CHECK on path lengths fails. */
  function Step(v: View, command: WatcherCommand, node: Node): Option<View> {
    var dir := CStr(command.directory);
    match command.code
    case EXCLUDE => Some(v.(excludes := v.excludes + {Stripped(dir)}))
    case REMOVE_EXCLUDE => Some(v.(excludes := v.excludes - {Stripped(dir)}))
    case REMOVE => Some(v.(watched := set p | p in v.watched && !(dir <= p)))
    case ADD =>
      if Fits(dir, node, v.excludes)
      then Some(v.(watched := v.watched + (set p | p in Found(dir, node, v.excludes)),
                   imports := v.imports + Imported(dir, node, v.excludes)))
      else None
  }

  function Steps(v: View, commands: seq<WatcherCommand>, disk: seq<Node>): Option<View>
    requires |disk| == |commands|
    decreases |commands|
  {
    if commands == [] then Some(v)
    else match Step(v, commands[0], disk[0])
      case None => None
      case Some(v') => Steps(v', commands[1..], disk[1..])
  }

  lemma {:induction false} StepsAppend(v: View, a: seq<WatcherCommand>, da: seq<Node>, b: seq<WatcherCommand>, db: seq<Node>)
    requires |a| == |da| && |b| == |db|
    ensures Steps(v, a + b, da + db)
         == match Steps(v, a, da) { case None => None case Some(v') => Steps(v', b, db) }
    decreases |a|
  {
    hide Step;
    if a == [] {
      Neutral(b);
      Neutral(db);
    } else {
      AppendTail(a, b);
      AppendTail(da, db);
      if Step(v, a[0], da[0]).Some? { StepsAppend(Step(v, a[0], da[0]).value, a[1..], da[1..], b, db); }
    }
  }

  function Tagged(dirs: seq<string>, code: WatcherCommandCode): (commands: seq<WatcherCommand>)
    ensures |commands| == |dirs|
    ensures forall k :: 0 <= k < |dirs| ==> commands[k] == WatcherCommand(code, dirs[k])
  {
    seq(|dirs|, k requires 0 <= k < |dirs| => WatcherCommand(code, dirs[k]))
  }

  /** One request: exclude, add or remove, and take the excludes back. */
  function Commands(dirs: seq<string>, excludes: seq<string>, code: WatcherCommandCode): seq<WatcherCommand> {
    Tagged(excludes, EXCLUDE) + Tagged(dirs, code) + Tagged(excludes, REMOVE_EXCLUDE)
  }

  // ----- The handler

  class FileWatcherRequestHandler {
    var queue: seq<WatcherCommand>

    constructor ()
      ensures queue == []
    {
      queue := [];
    }

    method Add(dirs: seq<string>, excludes: seq<string>)
      modifies this
      ensures queue == old(queue) + Commands(dirs, excludes, ADD)
    {
      Push(dirs, excludes, ADD);
    }

    method Remove(dirs: seq<string>, excludes: seq<string>)
      modifies this
      ensures queue == old(queue) + Commands(dirs, excludes, REMOVE)
    {
      Push(dirs, excludes, REMOVE);
    }

    method Push(dirs: seq<string>, excludes: seq<string>, code: WatcherCommandCode)
      modifies this
      ensures queue == old(queue) + Commands(dirs, excludes, code)
    {
      PushDirectories(excludes, EXCLUDE);
      PushDirectories(dirs, code);
      PushDirectories(excludes, REMOVE_EXCLUDE);
      Associative(old(queue), Tagged(excludes, EXCLUDE), Tagged(dirs, code));
      Associative(old(queue), Tagged(excludes, EXCLUDE) + Tagged(dirs, code), Tagged(excludes, REMOVE_EXCLUDE));
    }

    method PushDirectories(dirs: seq<string>, code: WatcherCommandCode)
      modifies this
      ensures queue == old(queue) + Tagged(dirs, code)
    {
      var i := 0;
      while i < |dirs|
        invariant 0 <= i <= |dirs|
        invariant queue == old(queue) + Tagged(dirs, code)[..i]
      {
        TakeNext(Tagged(dirs, code), i);
        PushDirectory(dirs[i], code);
        i := i + 1;
      }
    }

    method PushDirectory(dir: string, code: WatcherCommandCode)
      modifies this
      ensures queue == old(queue) + [WatcherCommand(code, dir)]
    {
      queue := queue + [WatcherCommand(code, dir)];
    }
  }

  // ----- The worker

  /** No command removes the path. */
  predicate Stays(p: cstring, commands: seq<WatcherCommand>) {
    forall c :: c in commands && c.code.REMOVE? ==> !(CStr(c.directory) <= p)
  }

  function UnloadsOf(command: WatcherCommand): seq<T.Operation> {
    if command.code.REMOVE? then [T.UnloadDir(command.directory)] else []
  }

  /** What the commands do to a tag table. */
  function Unloads(commands: seq<WatcherCommand>): seq<T.Operation> {
    if commands == [] then [] else UnloadsOf(commands[0]) + Unloads(commands[1..])
  }

  /** No loaded file without a basename starts with a directory that is removed. */
  predicate Unloadable(loaded: set<F.Filename>, commands: seq<WatcherCommand>) {
    forall c, f :: c in commands && c.code.REMOVE? && f in T.FilesInDir(loaded, c.directory) ==> !Tables.Nameless(f)
  }

  class FileWatcherRequestWorker {
    const watcher: InotifyFileWatcher
    const definitions: Tables.TagsTable
    const callers: Tables.TagsTable

    constructor (watcher: InotifyFileWatcher, definitions: Tables.TagsTable, callers: Tables.TagsTable)
      ensures this.watcher == watcher && this.definitions == definitions && this.callers == callers
    {
      this.watcher, this.definitions, this.callers := watcher, definitions, callers;
    }

    ghost predicate Valid()
      reads watcher, watcher.watchMap, definitions, callers
    {
      watcher.Valid() && definitions.Valid() && callers.Valid() && definitions != callers
    }

    ghost function Seen(): View
      reads watcher, watcher.watchMap
    {
      View(watcher.Watches().Keys, watcher.excludeList, watcher.imports)
    }

    ghost function Loaded(): set<F.Filename>
      reads definitions, callers
    {
      definitions.loadedFiles + callers.loadedFiles
    }

    /** Applies the commands in order; false: the program was aborted on the way. */
    method Run(commands: seq<WatcherCommand>, disk: seq<Node>) returns (alive: bool)
      requires Valid() && |disk| == |commands|
      modifies watcher, watcher.watchMap, definitions, callers
      ensures alive <==> Steps(old(Seen()), commands, disk).Some? && Unloadable(old(Loaded()), commands)
      ensures alive ==> Valid() && Seen() == Steps(old(Seen()), commands, disk).value
      ensures alive ==> definitions.View() == T.PerformAll(old(definitions.View()), Unloads(commands))
      ensures alive ==> callers.View() == T.PerformAll(old(callers.View()), Unloads(commands))
      ensures alive ==> forall p :: p in old(watcher.Watches()) && Stays(p, commands) ==>
                          p in watcher.Watches() && watcher.Watches()[p] == old(watcher.Watches())[p]
    {
      hide Step, Unloadable, Stays, T.PerformAll, Tables.TagsTable.Valid, InotifyFileWatcher.Valid, Loaded;
      var i := 0;
      StaysAll(commands);
      while i < |commands|
        invariant 0 <= i <= |commands| && Valid()
        invariant Steps(old(Seen()), commands, disk) == Steps(Seen(), commands[i..], disk[i..])
        invariant Unloadable(old(Loaded()), commands) <==> Unloadable(Loaded(), commands[i..])
        invariant T.PerformAll(old(definitions.View()), Unloads(commands)) == T.PerformAll(definitions.View(), Unloads(commands[i..]))
        invariant T.PerformAll(old(callers.View()), Unloads(commands)) == T.PerformAll(callers.View(), Unloads(commands[i..]))
        invariant forall p :: p in old(watcher.Watches()) && Stays(p, commands) ==>
                    p in watcher.Watches() && watcher.Watches()[p] == old(watcher.Watches())[p]
      {
        DropNext(commands, i);
        DropNext(disk, i);
        ghost var loaded, d, c := Loaded(), definitions.View(), callers.View();
        alive := Apply(commands[i], disk[i]);
        UnloadableNext(loaded, commands[i..]);
        if !alive {
          return;
        }
        UnloadableLater(loaded, Loaded(), commands[i + 1..]);
        UnloadsNext(d, commands[i..]);
        UnloadsNext(c, commands[i..]);
        i := i + 1;
      }
      UnloadableNone(Loaded());
      UnloadsNone(definitions.View());
      UnloadsNone(callers.View());
      alive := true;
    }

    /** The loop's body. */
    method Apply(command: WatcherCommand, node: Node) returns (alive: bool)
      requires Valid()
      modifies watcher, watcher.watchMap, definitions, callers
      ensures alive <==> Step(old(Seen()), command, node).Some? && Unloadable(old(Loaded()), [command])
      ensures alive ==> Valid() && Some(Seen()) == Step(old(Seen()), command, node)
      ensures alive ==> definitions.View() == T.PerformAll(old(definitions.View()), Unloads([command]))
      ensures alive ==> callers.View() == T.PerformAll(old(callers.View()), Unloads([command]))
      ensures alive ==> Loaded() <= old(Loaded()) && forall f :: f in old(Loaded()) && Tables.Nameless(f) ==> f in Loaded()
      ensures alive ==> forall p :: p in old(watcher.Watches()) && !(command.code.REMOVE? && CStr(command.directory) <= p) ==>
                          p in watcher.Watches() && watcher.Watches()[p] == old(watcher.Watches())[p]
    {
      hide T.PerformAll, Tables.Nameless, Tables.TagsTable.Valid;
      alive := true;
      UnloadsOne(definitions.View(), command);
      UnloadsOne(callers.View(), command);
      match command.code
      case EXCLUDE => watcher.AddExcludeDirectory(CStr(command.directory));
      case REMOVE_EXCLUDE => watcher.RemoveExcludeDirectory(CStr(command.directory));
      case ADD =>
        alive := watcher.AddDirectoryRecursive(CStr(command.directory), node);
        ghost var found := set p | p in Found(CStr(command.directory), node, old(watcher.excludeList));
        assert alive ==> Seen().watched == old(Seen()).watched + found;
      case REMOVE =>
        watcher.RemoveDirectoryRecursive(CStr(command.directory));
        assert Seen().watched == set p | p in old(Seen()).watched && !(CStr(command.directory) <= p);
        alive := UnloadBoth(command.directory);
    }

    /** Both handlers unload the directory. */
    method UnloadBoth(dirname: string) returns (alive: bool)
      requires definitions.Valid() && callers.Valid() && definitions != callers
      modifies definitions, callers
      ensures alive <==> forall f :: f in T.FilesInDir(old(Loaded()), dirname) ==> !Tables.Nameless(f)
      ensures alive ==> definitions.Valid() && definitions.View() == T.Perform(old(definitions.View()), T.UnloadDir(dirname))
      ensures alive ==> callers.Valid() && callers.View() == T.Perform(old(callers.View()), T.UnloadDir(dirname))
      ensures alive ==> Loaded() <= old(Loaded()) && forall f :: f in old(Loaded()) && Tables.Nameless(f) ==> f in Loaded()
    {
      hide Tables.Nameless, Tables.TagsTable.Valid, T.Perform;
      alive := Unload(definitions, dirname);
      if alive {
        alive := Unload(callers, dirname);
      }
    }

    /** LocalTagsRequestHandler::UnloadFilesInDir */
    method Unload(table: Tables.TagsTable, dirname: string) returns (alive: bool)
      requires table.Valid()
      modifies table
      ensures alive <==> forall f :: f in T.FilesInDir(old(table.loadedFiles), dirname) ==> !Tables.Nameless(f)
      ensures alive ==> table.Valid() && table.View() == T.Perform(old(table.View()), T.UnloadDir(dirname))
      ensures alive ==> table.loadedFiles == old(table.loadedFiles) - T.FilesInDir(old(table.loadedFiles), dirname)
    {
      alive := table.UnloadFilesInDir(dirname);
    }
  }

  lemma StaysAll(commands: seq<WatcherCommand>)
    ensures forall p, k :: 0 <= k < |commands| && Stays(p, commands) ==>
              !(commands[k].code.REMOVE? && CStr(commands[k].directory) <= p)
  {
  }

  lemma UnloadableNone(loaded: set<F.Filename>)
    ensures Unloadable(loaded, [])
  {
  }

  lemma UnloadableNext(loaded: set<F.Filename>, commands: seq<WatcherCommand>)
    requires commands != []
    ensures Unloadable(loaded, commands) <==> Unloadable(loaded, [commands[0]]) && Unloadable(loaded, commands[1..])
  {
    assert forall c :: c in commands <==> c == commands[0] || c in commands[1..];
  }

  /** Unloading leaves the files without a basename. */
  lemma UnloadableLater(before: set<F.Filename>, after: set<F.Filename>, commands: seq<WatcherCommand>)
    requires after <= before && forall f :: f in before && Tables.Nameless(f) ==> f in after
    ensures Unloadable(before, commands) <==> Unloadable(after, commands)
  {
  }

  lemma UnloadsNone(t: T.Table)
    ensures T.PerformAll(t, Unloads([])) == t
  {
  }

  lemma UnloadsOne(t: T.Table, command: WatcherCommand)
    ensures T.PerformAll(t, Unloads([command]))
         == if command.code.REMOVE? then T.Perform(t, T.UnloadDir(command.directory)) else t
  {
    assert [command][1..] == [];
  }

  lemma UnloadsNext(t: T.Table, commands: seq<WatcherCommand>)
    requires commands != []
    ensures T.PerformAll(t, Unloads(commands))
         == T.PerformAll(T.PerformAll(t, Unloads([commands[0]])), Unloads(commands[1..]))
  {
    hide T.Perform;
    UnloadsOne(t, commands[0]);
    if commands[0].code.REMOVE? {
      assert Unloads(commands)[1..] == Unloads(commands[1..]);
    } else {
      assert Unloads(commands) == Unloads(commands[1..]);
    }
  }

  // ----- A request as a whole

  datatype Request = Request(dirs: seq<string>, excludes: seq<string>, add: bool)

  function CommandsOf(r: Request): seq<WatcherCommand> {
    Commands(r.dirs, r.excludes, if r.add then ADD else REMOVE)
  }

  function StrippedAll(dirs: seq<string>): set<cstring> {
    set d | d in dirs :: Stripped(CStr(d))
  }

  lemma {:induction false} ExcludeSteps(v: View, dirs: seq<string>, disk: seq<Node>)
    requires |disk| == |dirs|
    ensures Steps(v, Tagged(dirs, EXCLUDE), disk) == Some(v.(excludes := v.excludes + StrippedAll(dirs)))
    decreases |dirs|
  {
    if dirs == [] {
      assert v.excludes + StrippedAll(dirs) == v.excludes;
    } else {
      var v' := v.(excludes := v.excludes + {Stripped(CStr(dirs[0]))});
      assert Tagged(dirs, EXCLUDE)[1..] == Tagged(dirs[1..], EXCLUDE);
      ExcludeSteps(v', dirs[1..], disk[1..]);
      StrippedNext(dirs);
      assert v'.excludes + StrippedAll(dirs[1..]) == v.excludes + StrippedAll(dirs);
    }
  }

  lemma {:induction false} UnexcludeSteps(v: View, dirs: seq<string>, disk: seq<Node>)
    requires |disk| == |dirs|
    ensures Steps(v, Tagged(dirs, REMOVE_EXCLUDE), disk) == Some(v.(excludes := v.excludes - StrippedAll(dirs)))
    decreases |dirs|
  {
    if dirs == [] {
      assert v.excludes - StrippedAll(dirs) == v.excludes;
    } else {
      var v' := v.(excludes := v.excludes - {Stripped(CStr(dirs[0]))});
      assert Tagged(dirs, REMOVE_EXCLUDE)[1..] == Tagged(dirs[1..], REMOVE_EXCLUDE);
      UnexcludeSteps(v', dirs[1..], disk[1..]);
      StrippedNext(dirs);
      assert v'.excludes - StrippedAll(dirs[1..]) == v.excludes - StrippedAll(dirs);
    }
  }

  lemma StrippedNext(dirs: seq<string>)
    requires dirs != []
    ensures StrippedAll(dirs) == {Stripped(CStr(dirs[0]))} + StrippedAll(dirs[1..])
  {
    assert forall d :: d in dirs <==> d == dirs[0] || d in dirs[1..];
  }

  /** The path starts with none of the directories. */
  predicate Spared(p: cstring, dirs: seq<string>) {
    forall d :: d in dirs ==> !(CStr(d) <= p)
  }

  lemma {:induction false} RemoveSteps(v: View, dirs: seq<string>, disk: seq<Node>)
    requires |disk| == |dirs|
    ensures Steps(v, Tagged(dirs, REMOVE), disk) == Some(v.(watched := set p | p in v.watched && Spared(p, dirs)))
    decreases |dirs|
  {
    if dirs == [] {
      assert v.watched == set p | p in v.watched && Spared(p, dirs);
    } else {
      var v' := v.(watched := set p | p in v.watched && !(CStr(dirs[0]) <= p));
      assert Tagged(dirs, REMOVE)[1..] == Tagged(dirs[1..], REMOVE);
      RemoveSteps(v', dirs[1..], disk[1..]);
      assert forall p :: Spared(p, dirs) <==> !(CStr(dirs[0]) <= p) && Spared(p, dirs[1..]) by {
        assert forall d :: d in dirs <==> d == dirs[0] || d in dirs[1..];
      }
      assert (set p | p in v'.watched && Spared(p, dirs[1..])) == (set p | p in v.watched && Spared(p, dirs));
    }
  }

  /** Some directory of the request has the path in it. */
  ghost predicate FoundByOne(p: cstring, dirs: seq<string>, disk: seq<Node>, excludes: set<cstring>)
    requires |disk| == |dirs|
  {
    exists k :: 0 <= k < |dirs| && p in Found(CStr(dirs[k]), disk[k], excludes)
  }

  predicate AllFit(dirs: seq<string>, disk: seq<Node>, excludes: set<cstring>)
    requires |disk| == |dirs|
  {
    forall k :: 0 <= k < |dirs| ==> Fits(CStr(dirs[k]), disk[k], excludes)
  }

  lemma {:induction false} AddSteps(v: View, dirs: seq<string>, disk: seq<Node>)
    requires |disk| == |dirs|
    ensures Steps(v, Tagged(dirs, ADD), disk).Some? <==> AllFit(dirs, disk, v.excludes)
    ensures AllFit(dirs, disk, v.excludes) ==>
      var w := Steps(v, Tagged(dirs, ADD), disk).value;
      && w.excludes == v.excludes
      && forall p :: p in w.watched <==> p in v.watched || FoundByOne(p, dirs, disk, v.excludes)
    decreases |dirs|
  {
    hide Found, Fits, Imported;
    if dirs != [] {
      assert Tagged(dirs, ADD)[1..] == Tagged(dirs[1..], ADD);
      FoundByNext(dirs, disk, v.excludes);
      hide FoundByOne, AllFit;
      if Step(v, Tagged(dirs, ADD)[0], disk[0]).Some? {
        var v' := Step(v, Tagged(dirs, ADD)[0], disk[0]).value;
        AddSteps(v', dirs[1..], disk[1..]);
      }
    }
  }

  lemma FoundByNext(dirs: seq<string>, disk: seq<Node>, excludes: set<cstring>)
    requires |disk| == |dirs| && dirs != []
    ensures AllFit(dirs, disk, excludes) <==> Fits(CStr(dirs[0]), disk[0], excludes) && AllFit(dirs[1..], disk[1..], excludes)
    ensures forall p :: FoundByOne(p, dirs, disk, excludes) <==>
                          p in Found(CStr(dirs[0]), disk[0], excludes) || FoundByOne(p, dirs[1..], disk[1..], excludes)
  {
    assert forall k :: 0 < k < |dirs| ==> dirs[k] == dirs[1..][k - 1] && disk[k] == disk[1..][k - 1];
  }

  /** The disk as the directories of the request meet it. */
  function Meets(r: Request, disk: seq<Node>): (d: seq<Node>)
    requires |disk| == |CommandsOf(r)|
    ensures |d| == |r.dirs|
  {
    disk[|r.excludes|..|r.excludes| + |r.dirs|]
  }

  function Working(v: View, r: Request): View {
    v.(excludes := v.excludes + StrippedAll(r.excludes))
  }

  /** The directories of a request are worked on with its excludes in force; afterwards
      the excludes it named are gone, whoever put them there. */
  lemma RequestMeans(v: View, r: Request, disk: seq<Node>)
    requires |disk| == |CommandsOf(r)|
    ensures Steps(v, CommandsOf(r), disk)
         == match Steps(Working(v, r), Tagged(r.dirs, if r.add then ADD else REMOVE), Meets(r, disk))
            case None => None
            case Some(w) => Some(w.(excludes := v.excludes - StrippedAll(r.excludes)))
  {
    hide Step, Steps, StrippedAll;
    var e, n := |r.excludes|, |r.dirs|;
    var code := if r.add then ADD else REMOVE;
    var before, middle, after := Tagged(r.excludes, EXCLUDE), Tagged(r.dirs, code), Tagged(r.excludes, REMOVE_EXCLUDE);
    assert disk == disk[..e] + Meets(r, disk) + disk[e + n..];
    StepsAppend(v, before + middle, disk[..e] + Meets(r, disk), after, disk[e + n..]);
    StepsAppend(v, before, disk[..e], middle, Meets(r, disk));
    ExcludeSteps(v, r.excludes, disk[..e]);
    var worked := Steps(Working(v, r), middle, Meets(r, disk));
    if worked.Some? {
      UnexcludeSteps(worked.value, r.excludes, disk[e + n..]);
      KeepsExcludes(Working(v, r), r, Meets(r, disk));
      assert v.excludes + StrippedAll(r.excludes) - StrippedAll(r.excludes) == v.excludes - StrippedAll(r.excludes);
    }
  }

  lemma KeepsExcludes(v: View, r: Request, disk: seq<Node>)
    requires |disk| == |r.dirs| && Steps(v, Tagged(r.dirs, if r.add then ADD else REMOVE), disk).Some?
    ensures Steps(v, Tagged(r.dirs, if r.add then ADD else REMOVE), disk).value.excludes == v.excludes
  {
    hide Steps;
    if r.add { AddSteps(v, r.dirs, disk); } else { RemoveSteps(v, r.dirs, disk); }
  }

  /** Adding: the new watches are what is found with the request's excludes in force. */
  lemma AddRequest(v: View, r: Request, disk: seq<Node>)
    requires r.add && |disk| == |CommandsOf(r)|
    ensures Steps(v, CommandsOf(r), disk).Some? <==> AllFit(r.dirs, Meets(r, disk), Working(v, r).excludes)
    ensures Steps(v, CommandsOf(r), disk).Some? ==>
      forall p :: p in Steps(v, CommandsOf(r), disk).value.watched <==>
                    p in v.watched || FoundByOne(p, r.dirs, Meets(r, disk), Working(v, r).excludes)
  {
    hide Steps, AllFit, FoundByOne;
    RequestMeans(v, r, disk);
    AddSteps(Working(v, r), r.dirs, Meets(r, disk));
  }

  /** Removing never fails, and leaves exactly the watches whose path starts with none of the directories. */
  lemma RemoveRequest(v: View, r: Request, disk: seq<Node>)
    requires !r.add && |disk| == |CommandsOf(r)|
    ensures Steps(v, CommandsOf(r), disk).Some?
    ensures forall p :: p in Steps(v, CommandsOf(r), disk).value.watched <==>
                          p in v.watched && Spared(p, r.dirs)
  {
    hide Steps;
    RequestMeans(v, r, disk);
    RemoveSteps(Working(v, r), r.dirs, Meets(r, disk));
  }

  lemma {:induction false} UnloadsAppend(a: seq<WatcherCommand>, b: seq<WatcherCommand>)
    ensures Unloads(a + b) == Unloads(a) + Unloads(b)
    decreases |a|
  {
    hide UnloadsOf, Unloads;
    if a == [] {
      Neutral(b);
      NoUnloads();
      Neutral(Unloads(b));
    } else {
      AppendTail(a, b);
      UnloadsAppend(a[1..], b);
      UnloadsHead(a);
      UnloadsHead(a + b);
      Associative(UnloadsOf(a[0]), Unloads(a[1..]), Unloads(b));
    }
  }

  lemma NoUnloads()
    ensures Unloads([]) == []
  {
  }

  lemma UnloadsHead(commands: seq<WatcherCommand>)
    requires commands != []
    ensures Unloads(commands) == UnloadsOf(commands[0]) + Unloads(commands[1..])
  {
  }

  lemma {:induction false} UnloadsTagged(dirs: seq<string>, code: WatcherCommandCode)
    ensures Unloads(Tagged(dirs, code)) == if code.REMOVE? then seq(|dirs|, k requires 0 <= k < |dirs| => T.UnloadDir(dirs[k])) else []
    decreases |dirs|
  {
    if dirs != [] {
      assert Tagged(dirs, code)[1..] == Tagged(dirs[1..], code);
      UnloadsTagged(dirs[1..], code);
    }
  }

  /** The file's name starts with none of the directories. */
  predicate KeptFile(f: F.Filename, dirs: seq<string>) {
    forall d :: d in dirs ==> !(d <= F.StrOf(f))
  }

  lemma KeptNext(f: F.Filename, dirs: seq<string>)
    requires dirs != []
    ensures KeptFile(f, dirs) <==> !(dirs[0] <= F.StrOf(f)) && KeptFile(f, dirs[1..])
  {
    var name := F.StrOf(f);
    if !(dirs[0] <= name) && KeptFile(f, dirs[1..]) {
      forall d | d in dirs
        ensures !(d <= name)
      {
        assert d == dirs[0] || d in dirs[1..];
      }
    }
    assert dirs[0] in dirs;
    assert forall d :: d in dirs[1..] ==> d in dirs;
  }

  lemma {:induction false} UnloadEach(t: T.Table, dirs: seq<string>)
    ensures T.PerformAll(t, seq(|dirs|, k requires 0 <= k < |dirs| => T.UnloadDir(dirs[k]))).files.Keys
         == set f | f in t.files && KeptFile(f, dirs)
    decreases |dirs|
  {
    if dirs != [] {
      var ops := seq(|dirs|, k requires 0 <= k < |dirs| => T.UnloadDir(dirs[k]));
      assert ops[1..] == seq(|dirs[1..]|, k requires 0 <= k < |dirs[1..]| => T.UnloadDir(dirs[1..][k]));
      UnloadEach(T.Perform(t, ops[0]), dirs[1..]);
      forall f: F.Filename {
        KeptNext(f, dirs);
      }
    }
  }

  /** What a request does to a tag table: adding leaves it alone, removing leaves exactly
      the files whose name starts with none of the directories. */
  lemma RequestUnloads(t: T.Table, r: Request)
    ensures r.add ==> T.PerformAll(t, Unloads(CommandsOf(r))) == t
    ensures !r.add ==> T.PerformAll(t, Unloads(CommandsOf(r))).files.Keys == set f | f in t.files && KeptFile(f, r.dirs)
  {
    hide T.PerformAll, KeptFile;
    var code := if r.add then ADD else REMOVE;
    UnloadsAppend(Tagged(r.excludes, EXCLUDE) + Tagged(r.dirs, code), Tagged(r.excludes, REMOVE_EXCLUDE));
    UnloadsAppend(Tagged(r.excludes, EXCLUDE), Tagged(r.dirs, code));
    UnloadsTagged(r.excludes, EXCLUDE);
    UnloadsTagged(r.excludes, REMOVE_EXCLUDE);
    UnloadsTagged(r.dirs, code);
    assert Unloads(CommandsOf(r)) == Unloads(Tagged(r.dirs, code));
    UnloadsNone(t);
    if !r.add { UnloadEach(t, r.dirs); }
  }

  // ----- Whole runs

  function AllCommands(rs: seq<Request>): seq<WatcherCommand> {
    if rs == [] then [] else CommandsOf(rs[0]) + AllCommands(rs[1..])
  }

  function AllExcludes(rs: seq<Request>): set<cstring> {
    set r, d | r in rs && d in r.excludes :: Stripped(CStr(d))
  }

  /** Over every sequence of requests: the exclude list loses what the requests named,
      and nothing else. */
  lemma {:induction false} EveryRunRestoresExcludes(v: View, rs: seq<Request>, disk: seq<Node>)
    requires |disk| == |AllCommands(rs)| && Steps(v, AllCommands(rs), disk).Some?
    ensures Steps(v, AllCommands(rs), disk).value.excludes == v.excludes - AllExcludes(rs)
    decreases |rs|
  {
    hide Step;
    if rs == [] {
      assert v.excludes - AllExcludes(rs) == v.excludes;
    } else {
      var n := |CommandsOf(rs[0])|;
      assert disk == disk[..n] + disk[n..];
      StepsAppend(v, CommandsOf(rs[0]), disk[..n], AllCommands(rs[1..]), disk[n..]);
      RequestMeans(v, rs[0], disk[..n]);
      var v' := Steps(v, CommandsOf(rs[0]), disk[..n]).value;
      EveryRunRestoresExcludes(v', rs[1..], disk[n..]);
      ExcludesNext(rs);
      assert v.excludes - StrippedAll(rs[0].excludes) - AllExcludes(rs[1..]) == v.excludes - AllExcludes(rs);
    }
  }

  lemma ExcludesNext(rs: seq<Request>)
    requires rs != []
    ensures AllExcludes(rs) == StrippedAll(rs[0].excludes) + AllExcludes(rs[1..])
  {
    assert forall r :: r in rs <==> r == rs[0] || r in rs[1..];
  }

  /** The excludes of a run stay local to it exactly if none of them was there before. */
  lemma ExcludesAreLocal(v: View, rs: seq<Request>, disk: seq<Node>)
    requires |disk| == |AllCommands(rs)| && Steps(v, AllCommands(rs), disk).Some?
    ensures Steps(v, AllCommands(rs), disk).value.excludes == v.excludes <==> v.excludes !! AllExcludes(rs)
  {
    EveryRunRestoresExcludes(v, rs, disk);
    hide Steps, AllCommands, AllExcludes;
    var a, b := v.excludes, AllExcludes(rs);
    if a !! b {
      assert a - b == a;
    } else {
      var x :| x in a && x in b;
      assert x !in a - b;
    }
  }

  /** Adding directories and then removing them leaves the watches that start with none of them.
      It undoes the addition if and only if no path that was watched before starts with one. */
  lemma AddThenRemove(v: View, dirs: seq<string>, one: seq<string>, two: seq<string>, disk: seq<Node>, later: seq<Node>)
    requires var add, remove := Request(dirs, one, true), Request(dirs, two, false);
      && |disk| == |CommandsOf(add)| && |later| == |CommandsOf(remove)|
      && Steps(v, CommandsOf(add), disk).Some?
    ensures var add, remove := Request(dirs, one, true), Request(dirs, two, false);
      var w := Steps(v, CommandsOf(add) + CommandsOf(remove), disk + later);
      && w.Some? && w.value.watched == (set p | p in v.watched && Spared(p, dirs))
      && (w.value.watched == v.watched <==> forall p :: p in v.watched ==> Spared(p, dirs))
  {
    hide Steps, CommandsOf, AllFit;
    var add, remove := Request(dirs, one, true), Request(dirs, two, false);
    StepsAppend(v, CommandsOf(add), disk, CommandsOf(remove), later);
    AddRequest(v, add, disk);
    RemoveRequest(Steps(v, CommandsOf(add), disk).value, remove, later);
    forall p | FoundByOne(p, dirs, Meets(add, disk), Working(v, add).excludes)
      ensures exists d :: d in dirs && CStr(d) <= p
    {
      var k :| 0 <= k < |dirs| && p in Found(CStr(dirs[k]), Meets(add, disk)[k], Working(v, add).excludes);
      assert dirs[k] in dirs && CStr(dirs[k]) <= p;
    }
  }

  // ----- Prefixes are not directories

  /** The path is dir itself or lies below it. */
  predicate Inside(p: cstring, dir: cstring) {
    p == dir || (dir <= p && (dir == "" || dir[|dir| - 1] == '/' || p[|dir|] == '/'))
  }

  /** Removing the directory takes no watch that lies outside of it. */
  predicate TakesOnlyInside(watches: map<cstring, int>, dir: cstring) {
    forall p :: p in watches && p !in Without(watches, dir) ==> Inside(p, dir)
  }

  /** Removing a directory takes only what lies inside it, whatever is watched, if and only
      if its name is empty or ends with a slash. */
  lemma RemovesOnlyInside(dir: cstring)
    ensures (forall watches :: TakesOnlyInside(watches, dir)) <==> dir == "" || dir[|dir| - 1] == '/'
  {
    if dir != "" && dir[|dir| - 1] != '/' {
      var sibling: cstring := dir + "x";
      var watches := map[sibling := 1];
      assert sibling in watches && sibling !in Without(watches, dir);
      assert !Inside(sibling, dir);
      assert !TakesOnlyInside(watches, dir);
    }
  }

  /** Removing /a also removes the watch on its sibling /ab. */
  lemma SiblingIsRemoved(wd: int)
    ensures !Inside("/ab", "/a") && "/ab" !in Without(map["/ab" := wd], "/a")
  {
  }
}
