/** The tag table as a value: what a sequence of loads, updates, deletions and
    directory unloads leaves in the sorted tag index, and which records each file
    then has. No index and no object appears here. */
module TagEntries {
  import opened CStrings
  import opened Numerals
  import F = Filenames

  /** The contents of a TagsResult. */
  datatype Entry = Entry(tag: string, filename: F.Filename, language: string,
                         lineno: int32, charno: int32, linerep: string)

  /** An (item ...) declaration; one without descriptor is not a tag. */
  datatype Item = Item(tag: string, lineno: int32, charno: int32, snippet: string) | NotATag

  datatype Declaration =
    | Header
    | File(path: string, language: string, contents: seq<Item>)
    | Deleted(path: string)

  const MAX_SNIPPET_SIZE := 200

  function Truncate(snippet: string): string {
    if |snippet| > MAX_SNIPPET_SIZE then snippet[..MAX_SNIPPET_SIZE] else snippet
  }

  function EntryOf(item: Item, filename: F.Filename, language: string): Entry
    requires item.Item?
  {
    Entry(CStr(item.tag), filename, CStr(language), item.lineno, item.charno, CStr(Truncate(item.snippet)))
  }

  /** The records of a (file ...) declaration, in its order. */
  function EntriesOf(filename: F.Filename, language: string, contents: seq<Item>): seq<Entry> {
    if contents == [] then []
    else if contents[0].NotATag? then EntriesOf(filename, language, contents[1..])
    else [EntryOf(contents[0], filename, language)] + EntriesOf(filename, language, contents[1..])
  }

  // ----- What a record holds

  /** The record shows what its item, its file and its declaration say. */
  predicate Holds(e: Entry, item: Item, filename: F.Filename, language: string)
    requires item.Item?
  {
    && e.tag == CStr(item.tag) && e.filename == filename && e.language == CStr(language)
    && e.lineno == item.lineno && e.charno == item.charno
    && e.linerep == CStr(if |item.snippet| <= 200 then item.snippet else item.snippet[..200])
  }

  lemma EntryHolds(item: Item, filename: F.Filename, language: string)
    requires item.Item?
    ensures Holds(EntryOf(item, filename, language), item, filename, language)
  {
  }

  /** Where the items stand that are tags. */
  function TagPositions(contents: seq<Item>): (at: seq<nat>)
    ensures forall i, j :: 0 <= i < j < |at| ==> at[i] < at[j]
    ensures forall p: nat :: p in at <==> p < |contents| && contents[p].Item?
  {
    if contents == [] then []
    else
      var most, last := contents[..|contents| - 1], |contents| - 1;
      var before := TagPositions(most);
      assert forall i :: 0 <= i < |before| ==> before[i] in before;
      before + if contents[last].Item? then [last] else []
  }

  /** One record for each item that is a tag, in their order. */
  ghost predicate HoldAll(es: seq<Entry>, contents: seq<Item>, filename: F.Filename, language: string) {
    var at := TagPositions(contents);
    |es| == |at| && forall k :: 0 <= k < |at| ==> at[k] in at && Holds(es[k], contents[at[k]], filename, language)
  }

  lemma {:induction false} EntriesOfAppend(f: F.Filename, language: string, contents: seq<Item>, item: Item)
    ensures EntriesOf(f, language, contents + [item])
         == EntriesOf(f, language, contents) + if item.Item? then [EntryOf(item, f, language)] else []
  {
    if contents == [] {
      assert contents + [item] == [item];
      assert [item][1..] == [];
    } else {
      assert (contents + [item])[1..] == contents[1..] + [item];
      EntriesOfAppend(f, language, contents[1..], item);
    }
  }

  lemma {:induction false} EntriesHold(filename: F.Filename, language: string, contents: seq<Item>)
    ensures HoldAll(EntriesOf(filename, language, contents), contents, filename, language)
  {
    if contents != [] {
      var most, last := contents[..|contents| - 1], contents[|contents| - 1];
      assert contents == most + [last];
      EntriesHold(filename, language, most);
      EntriesOfAppend(filename, language, most, last);
    }
  }

  // ----- Selections from the tag index

  datatype Query =
    | HasTag(tag: string)
    | HasPrefix(prefix: string)
    | InFile(filename: F.Filename)
    | Outside(files: set<F.Filename>)

  predicate Matches(e: Entry, q: Query) {
    match q
    case HasTag(tag) => e.tag == tag
    case HasPrefix(prefix) => prefix <= e.tag
    case InFile(filename) => e.filename == filename
    case Outside(files) => e.filename !in files
  }

  function Select(m: seq<Entry>, q: Query): (r: seq<Entry>)
    ensures |r| <= |m|
  {
    if m == [] then []
    else if Matches(m[0], q) then [m[0]] + Select(m[1..], q)
    else Select(m[1..], q)
  }

  predicate Sorted(m: seq<Entry>) {
    forall i, j :: 0 <= i < j < |m| ==> !Less(m[j].tag, m[i].tag)
  }

  /** multimap::insert: behind the entries with the same tag. */
  function Insert(m: seq<Entry>, e: Entry): seq<Entry> {
    if m == [] then [e]
    else if Less(e.tag, m[0].tag) then [e] + m
    else [m[0]] + Insert(m[1..], e)
  }

  function InsertAll(m: seq<Entry>, es: seq<Entry>): seq<Entry>
    decreases |es|
  {
    if es == [] then m else InsertAll(Insert(m, es[0]), es[1..])
  }

  // ----- The table and its operations

  /** The sorted tag index, and for each loaded file its records as declared. */
  datatype Table = Table(index: seq<Entry>, files: map<F.Filename, seq<Entry>>)

  const EMPTY: Table := Table([], map[])

  function Unload(t: Table, files: set<F.Filename>): Table {
    Table(Select(t.index, Outside(files)), t.files - files)
  }

  function Apply(t: Table, d: Declaration): Table {
    match d
    case Header => t
    case Deleted(path) => Unload(t, {F.Components(path)})
    case File(path, language, contents) =>
      var f := F.Components(path);
      var es := EntriesOf(f, language, contents);
      var rest := Unload(t, {f});
      Table(InsertAll(rest.index, es), rest.files[f := es])
  }

  function ApplyAll(t: Table, ds: seq<Declaration>): Table
    decreases |ds|
  {
    if ds == [] then t else ApplyAll(Apply(t, ds[0]), ds[1..])
  }

  /** Files whose name starts with the given text, as UnloadFilesInDir tests it. */
  function FilesInDir(files: set<F.Filename>, dirname: string): set<F.Filename> {
    set f | f in files && dirname <= F.StrOf(f)
  }

  datatype Operation =
    | Reload(ds: seq<Declaration>)
    | Update(ds: seq<Declaration>)
    | UnloadDir(dirname: string)

  function Perform(t: Table, op: Operation): Table {
    match op
    case Reload(ds) => ApplyAll(EMPTY, ds)
    case Update(ds) => ApplyAll(t, ds)
    case UnloadDir(dirname) => Unload(t, FilesInDir(t.files.Keys, dirname))
  }

  function PerformAll(t: Table, ops: seq<Operation>): Table
    decreases |ops|
  {
    if ops == [] then t else PerformAll(Perform(t, ops[0]), ops[1..])
  }

  // ----- The index represents the files

  /** The index is sorted, and what it holds for a file is that file's records,
      those with the same tag in the order of the declaration; nothing else. */
  ghost predicate Represents(t: Table) {
    && Sorted(t.index)
    && (forall f: F.Filename :: Select(t.index, InFile(f)) == InsertAll([], Records(t, f)))
    && (forall f :: f in t.files ==> forall k :: 0 <= k < |t.files[f]| ==> t.files[f][k].filename == f)
  }

  /** The records a file has in the table: none if it is not loaded. */
  function Records(t: Table, f: F.Filename): seq<Entry> {
    if f in t.files then t.files[f] else []
  }

  lemma {:induction false} InsertElements(m: seq<Entry>, e: Entry)
    ensures multiset(Insert(m, e)) == multiset(m) + multiset{e}
  {
    if m != [] {
      assert m == [m[0]] + m[1..];
      InsertElements(m[1..], e);
    }
  }

  lemma SortedInFront(first: Entry, m: seq<Entry>)
    requires Sorted(m) && forall j :: 0 <= j < |m| ==> !Less(m[j].tag, first.tag)
    ensures Sorted([first] + m)
  {
  }

  lemma {:induction false} InsertSorted(m: seq<Entry>, e: Entry)
    requires Sorted(m)
    ensures Sorted(Insert(m, e))
    ensures multiset(Insert(m, e)) == multiset(m) + multiset{e}
  {
    hide Less;
    InsertElements(m, e);
    if m != [] {
      if Less(e.tag, m[0].tag) {
        LessIrreflexive(m[0].tag);
        forall j | 0 <= j < |m|
          ensures !Less(m[j].tag, e.tag)
        {
          if Less(m[j].tag, e.tag) { LessTransitive(m[j].tag, e.tag, m[0].tag); }
        }
        SortedInFront(e, m);
      } else {
        var rest := Insert(m[1..], e);
        InsertElements(m[1..], e);
        InsertSorted(m[1..], e);
        forall j | 0 <= j < |rest|
          ensures !Less(rest[j].tag, m[0].tag)
        {
          assert rest[j] in multiset(rest);
          assert rest[j] == e || rest[j] in m[1..];
        }
        SortedInFront(m[0], rest);
      }
    }
  }

  /** Inserting a record shows in the selections that want it, and only there. */
  lemma {:induction false} SelectInsert(m: seq<Entry>, e: Entry, q: Query)
    requires Sorted(m)
    ensures Select(Insert(m, e), q) == if Matches(e, q) then Insert(Select(m, q), e) else Select(m, q)
  {
    if m != [] {
      assert m == [m[0]] + m[1..];
      if Less(e.tag, m[0].tag) {
        assert ([e] + m)[1..] == m;
        SelectBelow(m, e, q);
      } else {
        SelectInsert(m[1..], e, q);
        assert Insert(m, e)[1..] == Insert(m[1..], e);
        assert Matches(m[0], q) ==> Select(m, q)[1..] == Select(m[1..], q);
      }
    } else {
      assert [e][1..] == [];
    }
  }

  lemma {:induction false} SelectBelow(m: seq<Entry>, e: Entry, q: Query)
    requires Sorted(m) && (m != [] ==> Less(e.tag, m[0].tag))
    ensures Insert(Select(m, q), e) == [e] + Select(m, q)
  {
    if m != [] && !Matches(m[0], q) {
      if |m| > 1 {
        assert !Less(m[1].tag, m[0].tag);
        LessTotal(m[0].tag, m[1].tag);
        if Less(m[0].tag, m[1].tag) { LessTransitive(e.tag, m[0].tag, m[1].tag); }
      }
      SelectBelow(m[1..], e, q);
    }
  }

  lemma {:induction false} SelectInsertAll(m: seq<Entry>, es: seq<Entry>, f: F.Filename, g: F.Filename)
    requires Sorted(m) && forall k :: 0 <= k < |es| ==> es[k].filename == f
    ensures Sorted(InsertAll(m, es))
    ensures Select(InsertAll(m, es), InFile(g))
         == if f == g then InsertAll(Select(m, InFile(g)), es) else Select(m, InFile(g))
    decreases |es|
  {
    if es != [] {
      InsertSorted(m, es[0]);
      SelectInsert(m, es[0], InFile(g));
      SelectInsertAll(Insert(m, es[0]), es[1..], f, g);
    }
  }

  lemma {:induction false} SelectSorted(m: seq<Entry>, q: Query)
    requires Sorted(m)
    ensures Sorted(Select(m, q))
    ensures forall k :: 0 <= k < |Select(m, q)| ==> Select(m, q)[k] in m && Matches(Select(m, q)[k], q)
  {
    if m != [] {
      SelectSorted(m[1..], q);
      assert forall k :: 0 <= k < |m[1..]| ==> m[1..][k] == m[k + 1];
    }
  }

  /** Removing files removes their records and no others. */
  lemma {:induction false} SelectOutside(m: seq<Entry>, files: set<F.Filename>, f: F.Filename)
    ensures Select(Select(m, Outside(files)), InFile(f)) == if f in files then [] else Select(m, InFile(f))
  {
    if m != [] {
      SelectOutside(m[1..], files, f);
      if m[0].filename !in files {
        assert Select(m, Outside(files))[1..] == Select(m[1..], Outside(files));
      }
    }
  }

  lemma {:induction false} EntriesAreOf(f: F.Filename, language: string, contents: seq<Item>)
    ensures forall k :: 0 <= k < |EntriesOf(f, language, contents)| ==> EntriesOf(f, language, contents)[k].filename == f
  {
    if contents != [] { EntriesAreOf(f, language, contents[1..]); }
  }

  lemma UnloadRepresents(t: Table, files: set<F.Filename>)
    requires Represents(t)
    ensures Represents(Unload(t, files))
  {
    SelectSorted(t.index, Outside(files));
    forall f: F.Filename
      ensures Select(Unload(t, files).index, InFile(f)) == InsertAll([], Records(Unload(t, files), f))
    {
      SelectOutside(t.index, files, f);
    }
  }

  lemma ApplyRepresents(t: Table, d: Declaration)
    requires Represents(t)
    ensures Represents(Apply(t, d))
  {
    match d
    case Header =>
    case Deleted(path) => UnloadRepresents(t, {F.Components(path)});
    case File(path, language, contents) =>
      var f := F.Components(path);
      var es := EntriesOf(f, language, contents);
      var rest := Unload(t, {f});
      UnloadRepresents(t, {f});
      EntriesAreOf(f, language, contents);
      forall g: F.Filename
        ensures Sorted(InsertAll(rest.index, es))
        ensures Select(InsertAll(rest.index, es), InFile(g)) == InsertAll([], Records(Apply(t, d), g))
      {
        SelectInsertAll(rest.index, es, f, g);
      }
      assert Sorted(InsertAll(rest.index, es)) by { SelectInsertAll(rest.index, es, f, f); }
  }

  lemma {:induction false} ApplyAllRepresents(t: Table, ds: seq<Declaration>)
    requires Represents(t)
    ensures Represents(ApplyAll(t, ds))
    decreases |ds|
  {
    if ds != [] {
      ApplyRepresents(t, ds[0]);
      ApplyAllRepresents(Apply(t, ds[0]), ds[1..]);
    }
  }

  /** After every sequence of reloads, updates and directory unloads the sorted
      index represents one map from files to records. */
  lemma {:induction false} EveryRunRepresents(t: Table, ops: seq<Operation>)
    requires Represents(t)
    ensures Represents(PerformAll(t, ops))
    decreases |ops|
  {
    if ops != [] {
      match ops[0] {
        case Reload(ds) => ApplyAllRepresents(EMPTY, ds);
        case Update(ds) => ApplyAllRepresents(t, ds);
        case UnloadDir(dirname) => UnloadRepresents(t, FilesInDir(t.files.Keys, dirname));
      }
      EveryRunRepresents(Perform(t, ops[0]), ops[1..]);
    }
  }

  /** What the index holds for a file is a stable sort of its records: all of
      them once, by tag, and under each tag in the order of the declaration. */
  lemma {:induction false} StableSort(m: seq<Entry>, es: seq<Entry>, tag: string)
    requires Sorted(m)
    ensures Sorted(InsertAll(m, es)) && multiset(InsertAll(m, es)) == multiset(m) + multiset(es)
    ensures Select(InsertAll(m, es), HasTag(tag)) == Select(m, HasTag(tag)) + Select(es, HasTag(tag))
    decreases |es|
  {
    if es != [] {
      assert es == [es[0]] + es[1..];
      InsertSorted(m, es[0]);
      StableSort(Insert(m, es[0]), es[1..], tag);
      SelectInsert(m, es[0], HasTag(tag));
      if es[0].tag == tag {
        SelectSorted(m, HasTag(tag));
        InsertLast(Select(m, HasTag(tag)), es[0]);
      }
    } else {
      assert Select(m, HasTag(tag)) + [] == Select(m, HasTag(tag));
    }
  }

  lemma {:induction false} InsertLast(m: seq<Entry>, e: Entry)
    requires forall k :: 0 <= k < |m| ==> m[k].tag == e.tag
    ensures Insert(m, e) == m + [e]
  {
    if m != [] {
      LessIrreflexive(e.tag);
      InsertLast(m[1..], e);
    }
  }

  lemma {:induction false} SelectHolds(m: seq<Entry>, q: Query)
    ensures forall e :: e in Select(m, q) <==> e in m && Matches(e, q)
  {
    if m != [] { SelectHolds(m[1..], q); }
  }

  lemma {:induction false} InsertAllHolds(m: seq<Entry>, es: seq<Entry>)
    requires Sorted(m)
    ensures forall e :: e in InsertAll(m, es) <==> e in m || e in es
    decreases |es|
  {
    if es != [] {
      InsertSorted(m, es[0]);
      assert forall e :: e in Insert(m, es[0]) <==> e in multiset(Insert(m, es[0]));
      InsertAllHolds(Insert(m, es[0]), es[1..]);
    }
  }

  /** The index holds the records of the loaded files and nothing else. */
  lemma IndexHolds(t: Table, e: Entry)
    requires Represents(t)
    ensures e in t.index <==> e.filename in t.files && e in t.files[e.filename]
  {
    var f: F.Filename := e.filename;
    SelectHolds(t.index, InFile(f));
    InsertAllHolds([], Records(t, f));
    assert Select(t.index, InFile(f)) == InsertAll([], Records(t, f));
  }

  lemma FileHolds(t: Table, f: F.Filename)
    requires Represents(t)
    ensures forall e :: e in Records(t, f) <==> e.filename == f && f in t.files && e in t.files[f]
  {
  }

  // ----- The last declaration of a file wins

  predicate Declares(d: Declaration, f: F.Filename) {
    (d.File? || d.Deleted?) && F.Components(d.path) == f
  }

  /** The records that the last declaration of f in ds gives it; `before` if none does. */
  function LastDeclared(ds: seq<Declaration>, f: F.Filename, before: Option<seq<Entry>>): Option<seq<Entry>> {
    if ds == [] then before
    else
      var last := ds[|ds| - 1];
      if !Declares(last, f) then LastDeclared(ds[..|ds| - 1], f, before)
      else if last.Deleted? then None
      else Some(EntriesOf(f, last.language, last.contents))
  }

  /** What a series of operations leaves of a file: a reload forgets what was before, an
      update keeps it unless the file is declared, and an unloaded directory takes it away
      if its name starts with the directory's. */
  function LastEffect(ops: seq<Operation>, f: F.Filename, before: Option<seq<Entry>>): Option<seq<Entry>>
    decreases |ops|
  {
    if ops == [] then before
    else
      var after :=
        match ops[0]
        case Reload(ds) => LastDeclared(ds, f, None)
        case Update(ds) => LastDeclared(ds, f, before)
        case UnloadDir(dirname) => if dirname <= F.StrOf(f) then None else before;
      LastEffect(ops[1..], f, after)
  }

  function Lookup(t: Table, f: F.Filename): Option<seq<Entry>> {
    if f in t.files then Some(t.files[f]) else None
  }

  lemma {:induction false} ApplyAllAppend(t: Table, ds: seq<Declaration>, d: Declaration)
    ensures ApplyAll(t, ds + [d]) == Apply(ApplyAll(t, ds), d)
    decreases |ds|
  {
    if ds == [] {
      assert ds + [d] == [d];
    } else {
      assert (ds + [d])[1..] == ds[1..] + [d];
      ApplyAllAppend(Apply(t, ds[0]), ds[1..], d);
    }
  }

  /** Loading a tag file leaves every file with exactly the records of its last
      declaration, and files that it does not mention as they were. */
  lemma {:induction false} LastWriterWins(t: Table, ds: seq<Declaration>, f: F.Filename)
    ensures Lookup(ApplyAll(t, ds), f) == LastDeclared(ds, f, Lookup(t, f))
    decreases |ds|
  {
    hide Apply, Lookup, Declares, EntriesOf;
    if ds != [] {
      var most, last := ds[..|ds| - 1], ds[|ds| - 1];
      assert ds == most + [last];
      ApplyAllAppend(t, most, last);
      LastWriterWins(t, most, f);
      OneDeclaration(ApplyAll(t, most), last, f);
    }
  }

  /** No later declaration is about the same file. */
  ghost predicate IsLast(ds: seq<Declaration>, k: nat)
    requires k < |ds| && !ds[k].Header?
  {
    forall j :: k < j < |ds| ==> !Declares(ds[j], F.Components(ds[k].path))
  }

  /** Every file whose last declaration is that of a file holds the records it says. */
  ghost predicate LastHeld(files: map<F.Filename, seq<Entry>>, ds: seq<Declaration>) {
    forall k :: 0 <= k < |ds| && ds[k].File? && IsLast(ds, k) ==>
      var f := F.Components(ds[k].path);
      f in files && HoldAll(files[f], ds[k].contents, f, ds[k].language)
  }

  lemma {:induction false} LastIsDeclared(ds: seq<Declaration>, k: nat, before: Option<seq<Entry>>)
    requires k < |ds| && !ds[k].Header? && IsLast(ds, k)
    ensures var f := F.Components(ds[k].path);
      LastDeclared(ds, f, before) == if ds[k].Deleted? then None else Some(EntriesOf(f, ds[k].language, ds[k].contents))
  {
    if k < |ds| - 1 {
      var most := ds[..|ds| - 1];
      assert most[k] == ds[k] && forall j :: k < j < |most| ==> most[j] == ds[j];
      LastIsDeclared(most, k, before);
    }
  }

  lemma {:induction false} NoneDeclared(ds: seq<Declaration>, f: F.Filename, before: Option<seq<Entry>>)
    requires forall k :: 0 <= k < |ds| ==> !Declares(ds[k], f)
    ensures LastDeclared(ds, f, before) == before
  {
    if ds != [] { NoneDeclared(ds[..|ds| - 1], f, before); }
  }

  /** After a tag file, each file holds one record for each tag item of its last
      declaration: its C-string tag, line, offset, and the C string of the first 200
      characters of its snippet; a file whose last declaration deletes it is gone, and one
      that is not mentioned is as before. */
  lemma LoadedRecords(t: Table, ds: seq<Declaration>)
    ensures var files := ApplyAll(t, ds).files;
      && LastHeld(files, ds)
      && (forall k :: 0 <= k < |ds| && ds[k].Deleted? && IsLast(ds, k) ==> F.Components(ds[k].path) !in files)
      && (forall f: F.Filename :: (forall k :: 0 <= k < |ds| ==> !Declares(ds[k], f)) ==>
            Lookup(ApplyAll(t, ds), f) == Lookup(t, f))
  {
    hide ApplyAll, EntriesOf, LastDeclared, IsLast, HoldAll, Declares;
    var files := ApplyAll(t, ds).files;
    forall k | 0 <= k < |ds| && !ds[k].Header? && IsLast(ds, k)
      ensures var f := F.Components(ds[k].path);
        && (ds[k].File? ==> f in files && HoldAll(files[f], ds[k].contents, f, ds[k].language))
        && (ds[k].Deleted? ==> f !in files)
    {
      var f := F.Components(ds[k].path);
      LastWriterWins(t, ds, f);
      LastIsDeclared(ds, k, Lookup(t, f));
      if ds[k].File? { EntriesHold(f, ds[k].language, ds[k].contents); }
    }
    forall f: F.Filename | forall k :: 0 <= k < |ds| ==> !Declares(ds[k], f)
      ensures Lookup(ApplyAll(t, ds), f) == Lookup(t, f)
    {
      LastWriterWins(t, ds, f);
      NoneDeclared(ds, f, Lookup(t, f));
    }
  }

  lemma OneDeclaration(t: Table, d: Declaration, f: F.Filename)
    ensures Lookup(Apply(t, d), f)
         == if !Declares(d, f) then Lookup(t, f)
            else if d.Deleted? then None
            else Some(EntriesOf(f, d.language, d.contents))
  {
    hide EntriesOf, InsertAll, Select, F.Components;
  }

  /** Over every sequence of reloads, updates and directory unloads, a file has the records
      of the last operation that touches it. */
  lemma {:induction false} LastOperationWins(t: Table, ops: seq<Operation>, f: F.Filename)
    ensures Lookup(PerformAll(t, ops), f) == LastEffect(ops, f, Lookup(t, f))
    decreases |ops|
  {
    hide ApplyAll;
    if ops != [] {
      match ops[0] {
        case Reload(ds) => LastWriterWins(EMPTY, ds, f);
        case Update(ds) => LastWriterWins(t, ds, f);
        case UnloadDir(_) =>
      }
      LastOperationWins(Perform(t, ops[0]), ops[1..], f);
    }
  }

  /** These are the records of one of the declarations of the file. */
  ghost predicate Declared(es: seq<Entry>, f: F.Filename, ds: seq<Declaration>) {
    exists k :: 0 <= k < |ds| && ds[k].File? && F.Components(ds[k].path) == f && HoldAll(es, ds[k].contents, f, ds[k].language)
  }

  lemma {:induction false} LastIsOneOf(ds: seq<Declaration>, f: F.Filename, before: Option<seq<Entry>>)
    ensures var last := LastDeclared(ds, f, before); last.Some? ==> last == before || Declared(last.value, f, ds)
  {
    hide EntriesOf, HoldAll;
    if ds != [] {
      var most, last := ds[..|ds| - 1], ds[|ds| - 1];
      if !Declares(last, f) {
        LastIsOneOf(most, f, before);
        assert forall k :: 0 <= k < |most| ==> most[k] == ds[k];
      } else if last.File? {
        EntriesHold(f, last.language, last.contents);
        assert ds[|ds| - 1] == last;
      }
    }
  }

  /** The operation has a tag file that declares these records. */
  ghost predicate DeclaredBy(es: seq<Entry>, f: F.Filename, op: Operation) {
    !op.UnloadDir? && Declared(es, f, op.ds)
  }

  /** Over every sequence of operations: what a file holds is what one of its declarations
      says, item by item, or what it held before. */
  lemma {:induction false} EveryRecordDeclared(t: Table, ops: seq<Operation>, f: F.Filename)
    requires f in PerformAll(t, ops).files
    ensures Lookup(PerformAll(t, ops), f) == Lookup(t, f)
         || exists i :: 0 <= i < |ops| && DeclaredBy(PerformAll(t, ops).files[f], f, ops[i])
    decreases |ops|
  {
    hide ApplyAll, Declared;
    if ops != [] {
      var t', es := Perform(t, ops[0]), PerformAll(t, ops).files[f];
      EveryRecordDeclared(t', ops[1..], f);
      if i :| 0 <= i < |ops[1..]| && DeclaredBy(es, f, ops[1..][i]) {
        assert DeclaredBy(es, f, ops[i + 1]);
      } else {
        OneOperation(t, ops[0], f);
        assert DeclaredBy(es, f, ops[0]) || Lookup(t', f) == Lookup(t, f);
      }
    }
  }

  lemma OneOperation(t: Table, op: Operation, f: F.Filename)
    requires f in Perform(t, op).files
    ensures Lookup(Perform(t, op), f) == Lookup(t, f) || DeclaredBy(Perform(t, op).files[f], f, op)
  {
    hide ApplyAll, Declared, LastDeclared;
    match op {
      case Reload(ds) =>
        LastWriterWins(EMPTY, ds, f);
        LastIsOneOf(ds, f, None);
      case Update(ds) =>
        LastWriterWins(t, ds, f);
        LastIsOneOf(ds, f, Lookup(t, f));
      case UnloadDir(_) =>
    }
  }

  // ----- Lookups are ranges of the index

  /** The first position whose tag is not below the key. */
  function LowerBound(m: seq<Entry>, key: string): (k: nat)
    ensures k <= |m|
    ensures forall i :: 0 <= i < k ==> Less(m[i].tag, key)
    ensures k < |m| ==> !Less(m[k].tag, key)
  {
    if m == [] || !Less(m[0].tag, key) then 0 else 1 + LowerBound(m[1..], key)
  }

  /** The first position whose tag is above the key. */
  function UpperBound(m: seq<Entry>, key: string): (k: nat)
    ensures k <= |m|
    ensures forall i :: 0 <= i < k ==> !Less(key, m[i].tag)
    ensures k < |m| ==> Less(key, m[k].tag)
  {
    if m == [] || Less(key, m[0].tag) then 0 else 1 + UpperBound(m[1..], key)
  }

  lemma {:induction false} SelectRange(m: seq<Entry>, lo: nat, hi: nat, q: Query)
    requires lo <= hi <= |m|
    requires forall k :: 0 <= k < |m| ==> (Matches(m[k], q) <==> lo <= k < hi)
    ensures Select(m, q) == m[lo..hi]
  {
    if m != [] {
      var lo', hi' := if lo == 0 then 0 else lo - 1, if hi == 0 then 0 else hi - 1;
      assert forall k :: 0 <= k < |m[1..]| ==> m[1..][k] == m[k + 1];
      SelectRange(m[1..], lo', hi', q);
      assert m[1..][lo'..hi'] == if lo == 0 && hi > 0 then m[1..hi] else m[lo..hi];
    }
  }

  /** equal_range is the filter by equality. */
  lemma EqualRange(m: seq<Entry>, tag: string)
    requires Sorted(m)
    ensures LowerBound(m, tag) <= UpperBound(m, tag)
    ensures Select(m, HasTag(tag)) == m[LowerBound(m, tag)..UpperBound(m, tag)]
  {
    var lo, hi := LowerBound(m, tag), UpperBound(m, tag);
    forall k | 0 <= k < |m|
      ensures m[k].tag == tag <==> lo <= k < hi
    {
      LessIrreflexive(tag);
      if lo < k { NotLessTransitive(m[k].tag, m[lo].tag, tag); }
      if hi < k { LessNotLess(tag, m[hi].tag, m[k].tag); }
      LessTotal(m[k].tag, tag);
    }
    if hi < lo {
      LessTotal(m[hi].tag, tag);
      assert Less(m[hi].tag, tag) && Less(tag, m[hi].tag);
      LessTransitive(m[hi].tag, tag, m[hi].tag);
      LessIrreflexive(m[hi].tag);
    }
    SelectRange(m, lo, hi, HasTag(tag));
  }

  lemma NotLessTransitive(a: string, b: string, c: string)
    requires !Less(a, b) && !Less(b, c)
    ensures !Less(a, c)
  {
    LessTotal(a, b);
    LessTotal(b, c);
    if Less(a, c) && a != b && b != c {
      LessTransitive(b, a, c);
    }
  }

  lemma LessNotLess(a: string, b: string, c: string)
    requires Less(a, b) && !Less(c, b)
    ensures Less(a, c)
  {
    LessTotal(b, c);
    if Less(b, c) { LessTransitive(a, b, c); }
  }

  /** The end of the run of entries that start with the prefix. */
  function PrefixEnd(m: seq<Entry>, from: nat, prefix: string): (k: nat)
    requires from <= |m|
    ensures from <= k <= |m|
    ensures forall i :: from <= i < k ==> prefix <= m[i].tag
    ensures k < |m| ==> !(prefix <= m[k].tag)
    decreases |m| - from
  {
    if from == |m| || !(prefix <= m[from].tag) then from else PrefixEnd(m, from + 1, prefix)
  }

  /** Scanning from lower_bound to the first entry without the prefix is the
      filter by prefix of the whole index. */
  lemma PrefixRange(m: seq<Entry>, prefix: string)
    requires Sorted(m)
    ensures Select(m, HasPrefix(prefix)) == m[LowerBound(m, prefix)..PrefixEnd(m, LowerBound(m, prefix), prefix)]
  {
    var lo := LowerBound(m, prefix);
    var hi := PrefixEnd(m, lo, prefix);
    forall k | 0 <= k < |m|
      ensures prefix <= m[k].tag <==> lo <= k < hi
    {
      if prefix <= m[k].tag {
        PrefixNotLess(prefix, m[k].tag);
        if hi <= k {
          if lo < hi { NotLessTransitive(m[hi].tag, m[lo].tag, prefix); }
          if hi < k { PrefixInterval(prefix, m[hi].tag, m[k].tag); }
        }
      }
    }
    SelectRange(m, lo, hi, HasPrefix(prefix));
  }
}
