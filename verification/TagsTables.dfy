/** TagsTable (tagstable.cc): the tag index, the file index, the basename index
    and the set of loaded files, and the methods that keep them in agreement. */
module TagsTables {
  import opened CStrings
  import opened Sequences
  import opened TagEntries
  import F = Filenames

  /** A record lives in the indexes by identity: unloading compares pointers. */
  class TagsResult {
    const value: Entry

    constructor (value: Entry)
      ensures this.value == value
    {
      this.value := value;
    }
  }

  function Values(rs: seq<TagsResult>): (es: seq<Entry>)
    ensures |es| == |rs|
    ensures forall k :: 0 <= k < |rs| ==> es[k] == rs[k].value
  {
    if rs == [] then [] else [rs[0].value] + Values(rs[1..])
  }

  predicate Distinct(rs: seq<TagsResult>) {
    forall i, j :: 0 <= i < j < |rs| ==> rs[i] != rs[j]
  }

  function Elements(rs: seq<TagsResult>): set<TagsResult> {
    set r | r in rs
  }

  /** The records that are not in `gone`. */
  function Except(rs: seq<TagsResult>, gone: set<TagsResult>): (r: seq<TagsResult>)
    ensures forall x :: x in r ==> x in rs && x !in gone
    ensures forall x :: x in rs && x !in gone ==> x in r
  {
    if rs == [] then []
    else if rs[0] in gone then Except(rs[1..], gone)
    else [rs[0]] + Except(rs[1..], gone)
  }

  function Inserted(rs: seq<TagsResult>, r: TagsResult): (s: seq<TagsResult>)
    ensures r in s && forall x :: x in rs ==> x in s
    ensures forall x :: x in s ==> x in rs || x == r
  {
    if rs == [] then [r]
    else if Less(r.value.tag, rs[0].value.tag) then [r] + rs
    else [rs[0]] + Inserted(rs[1..], r)
  }

  /** An entry of the basename index. */
  type Named = (Option<string>, F.Filename)

  function NameOf(f: F.Filename): Named {
    (F.BasenameOf(f), f)
  }

  // ----- Agreement of the indexes

  /** The tag index holds every record once, sorted, and only records of loaded files. */
  ghost predicate TagIndexAgrees(m: seq<TagsResult>, loaded: set<F.Filename>, live: set<TagsResult>) {
    && Sorted(Values(m))
    && Distinct(m)
    && (forall r :: r in live ==> r in m)
    && (forall r :: r in m ==> r in live)
    && (forall r :: r in m ==> r.value.filename in loaded)
  }

  /** `v` lists the records of f exactly, once each, and they carry `es`. */
  ghost predicate FileAgrees(m: seq<TagsResult>, f: F.Filename, v: seq<TagsResult>, es: seq<Entry>) {
    && Distinct(v)
    && Values(v) == es
    && (forall r :: r in v ==> r in m && r.value.filename == f)
    && (forall r :: r in m && r.value.filename == f ==> r in v)
  }

  /** The file index holds for each loaded file exactly its records, in the order
      of the declaration. */
  ghost predicate FileIndexAgrees(m: seq<TagsResult>, filemap: map<F.Filename, seq<TagsResult>>,
                                  files: map<F.Filename, seq<Entry>>) {
    && filemap.Keys == files.Keys
    && forall f :: f in filemap ==> FileAgrees(m, f, filemap[f], files[f])
  }

  /** The basename index names a file once per record, under its own basename. */
  ghost predicate NameIndexAgrees(names: seq<Named>, files: map<F.Filename, seq<Entry>>) {
    forall n: Named :: multiset(names)[n] ==
      if n.1 in files && n.0 == F.BasenameOf(n.1) then |files[n.1]| else 0
  }

  // ----- Steps that keep the agreement

  lemma {:induction false} ValuesInserted(m: seq<TagsResult>, r: TagsResult)
    ensures Values(Inserted(m, r)) == Insert(Values(m), r.value)
  {
    if m != [] {
      ValuesInserted(m[1..], r);
      assert Values(m)[1..] == Values(m[1..]);
      if Less(r.value.tag, m[0].value.tag) { assert ([r] + m)[1..] == m; }
    }
  }

  lemma {:induction false} DistinctInserted(m: seq<TagsResult>, r: TagsResult)
    requires Distinct(m) && r !in m
    ensures Distinct(Inserted(m, r))
  {
    if m != [] {
      DistinctInserted(m[1..], r);
      assert m[0] !in m[1..];
      assert m[0] !in Inserted(m[1..], r);
    }
  }

  lemma {:induction false} DistinctExcept(m: seq<TagsResult>, gone: set<TagsResult>)
    requires Distinct(m)
    ensures Distinct(Except(m, gone))
  {
    if m != [] {
      DistinctExcept(m[1..], gone);
      assert m[0] !in m[1..];
      assert m[0] !in Except(m[1..], gone);
    }
  }

  /** Removing a file's records is selecting the others. */
  lemma {:induction false} ValuesExcept(m: seq<TagsResult>, gone: set<TagsResult>, f: F.Filename)
    requires forall r :: r in m ==> (r in gone <==> r.value.filename == f)
    ensures Values(Except(m, gone)) == Select(Values(m), Outside({f}))
  {
    if m != [] {
      ValuesExcept(m[1..], gone, f);
      assert Values(m)[1..] == Values(m[1..]);
    }
  }

  lemma {:induction false} ExceptTwice(m: seq<TagsResult>, a: set<TagsResult>, b: set<TagsResult>)
    ensures Except(Except(m, a), b) == Except(m, a + b)
  {
    if m != [] { ExceptTwice(m[1..], a, b); }
  }

  lemma {:induction false} ExceptNone(m: seq<TagsResult>, gone: set<TagsResult>)
    requires forall r :: r in m ==> r !in gone
    ensures Except(m, gone) == m
  {
    if m != [] {
      ExceptNone(m[1..], gone);
      assert m == [m[0]] + m[1..];
    }
  }

  lemma {:induction false} ExceptOne(m: seq<TagsResult>, k: nat)
    requires Distinct(m) && k < |m|
    ensures Except(m, {m[k]}) == m[..k] + m[k + 1..]
  {
    if k == 0 {
      assert m[0] !in m[1..];
      ExceptNone(m[1..], {m[0]});
    } else {
      ExceptOne(m[1..], k - 1);
      assert m[..k] + m[k + 1..] == [m[0]] + (m[1..][..k - 1] + m[1..][k..]);
    }
  }

  lemma {:induction false} ExceptConcat(a: seq<TagsResult>, b: seq<TagsResult>, gone: set<TagsResult>)
    ensures Except(a + b, gone) == Except(a, gone) + Except(b, gone)
  {
    if a == [] {
      Neutral(b);
      Neutral(Except(b, gone));
    } else {
      ExceptConcat(a[1..], b, gone);
      AppendTail(a, b);
      Associative([a[0]], Except(a[1..], gone), Except(b, gone));
    }
  }

  lemma {:induction false} ValuesAppend(rs: seq<TagsResult>, r: TagsResult)
    ensures Values(rs + [r]) == Values(rs) + [r.value]
  {
  }

  lemma {:induction false} InsertAllAppend(m: seq<Entry>, es: seq<Entry>, e: Entry)
    ensures InsertAll(m, es + [e]) == Insert(InsertAll(m, es), e)
    decreases |es|
  {
    if es == [] {
      assert es + [e] == [e];
      assert [e][1..] == [];
    } else {
      assert (es + [e])[1..] == es[1..] + [e];
      InsertAllAppend(Insert(m, es[0]), es[1..], e);
    }
  }

  lemma RecordIsInEqualRange(m: seq<TagsResult>, k: nat)
    requires Sorted(Values(m)) && k < |m|
    ensures LowerBound(Values(m), m[k].value.tag) <= k < UpperBound(Values(m), m[k].value.tag)
  {
    EntryIsInEqualRange(Values(m), k);
  }

  lemma EntryIsInEqualRange(es: seq<Entry>, k: nat)
    requires Sorted(es) && k < |es|
    ensures LowerBound(es, es[k].tag) <= k < UpperBound(es, es[k].tag)
  {
    hide LowerBound, UpperBound, Less, Sorted;
    var tag := es[k].tag;
    LessIrreflexive(tag);
    var hi := UpperBound(es, tag);
    if hi <= k {
      assert Less(tag, es[hi].tag);
      SortedAt(es, hi, k);
    }
  }

  lemma SortedAt(es: seq<Entry>, i: nat, j: nat)
    requires Sorted(es) && i <= j < |es|
    ensures i < j ==> !Less(es[j].tag, es[i].tag)
  {
  }

  /** A new record of a loaded file enters all indexes. */
  lemma InsertAgrees(m: seq<TagsResult>, r: TagsResult, loaded: set<F.Filename>, live: set<TagsResult>)
    requires TagIndexAgrees(m, loaded, live) && r !in m && r.value.filename in loaded
    ensures TagIndexAgrees(Inserted(m, r), loaded, live + {r})
  {
    ValuesInserted(m, r);
    InsertSorted(Values(m), r.value);
    DistinctInserted(m, r);
  }

  lemma InsertInFile(m: seq<TagsResult>, r: TagsResult, f: F.Filename, v: seq<TagsResult>, es: seq<Entry>)
    requires FileAgrees(m, f, v, es) && r !in m
    ensures if r.value.filename == f then FileAgrees(Inserted(m, r), f, v + [r], es + [r.value])
            else FileAgrees(Inserted(m, r), f, v, es)
  {
    ValuesAppend(v, r);
  }

  lemma InsertFileIndex(m: seq<TagsResult>, r: TagsResult, filemap: map<F.Filename, seq<TagsResult>>,
                        files: map<F.Filename, seq<Entry>>, v: seq<TagsResult>, es: seq<Entry>)
    requires var f := r.value.filename; FileIndexAgrees(m, filemap[f := v], files[f := es])
    requires r !in m
    ensures var f := r.value.filename;
            FileIndexAgrees(Inserted(m, r), filemap[f := v + [r]], files[f := es + [r.value]])
  {
    hide FileAgrees, Inserted;
    var f := r.value.filename;
    var fm, fs := filemap[f := v], files[f := es];
    var fm', fs' := filemap[f := v + [r]], files[f := es + [r.value]];
    assert fm'.Keys == fm.Keys && fs'.Keys == fs.Keys;
    forall g | g in fm'
      ensures FileAgrees(Inserted(m, r), g, fm'[g], fs'[g])
    {
      assert FileAgrees(m, g, fm[g], fs[g]);
      InsertInFile(m, r, g, fm[g], fs[g]);
    }
  }

  lemma NameAgrees(names: seq<Named>, files: map<F.Filename, seq<Entry>>, f: F.Filename, es: seq<Entry>, e: Entry)
    requires NameIndexAgrees(names, files[f := es])
    ensures NameIndexAgrees(names + [NameOf(f)], files[f := es + [e]])
  {
  }

  /** The records of an unloaded file leave all indexes. */
  lemma UnloadTagIndex(m: seq<TagsResult>, loaded: set<F.Filename>, live: set<TagsResult>,
                       gone: set<TagsResult>, f: F.Filename)
    requires TagIndexAgrees(m, loaded, live)
    requires forall r :: r in m ==> (r in gone <==> r.value.filename == f)
    ensures TagIndexAgrees(Except(m, gone), loaded - {f}, live - gone)
    ensures Values(Except(m, gone)) == Select(Values(m), Outside({f}))
  {
    ValuesExcept(m, gone, f);
    SelectSorted(Values(m), Outside({f}));
    DistinctExcept(m, gone);
  }

  lemma UnloadFileIndex(m: seq<TagsResult>, filemap: map<F.Filename, seq<TagsResult>>,
                        files: map<F.Filename, seq<Entry>>, gone: set<TagsResult>, f: F.Filename)
    requires FileIndexAgrees(m, filemap, files)
    requires forall r :: r in m ==> (r in gone <==> r.value.filename == f)
    ensures FileIndexAgrees(Except(m, gone), filemap - {f}, files - {f})
  {
    forall g | g in filemap && g != f
      ensures FileAgrees(Except(m, gone), g, filemap[g], files[g])
    {
      assert FileAgrees(m, g, filemap[g], files[g]);
    }
  }

  /** The entries of the basename index that are not `name`. */
  function WithoutName(names: seq<Named>, name: Named): seq<Named> {
    if names == [] then []
    else if names[0] == name then WithoutName(names[1..], name)
    else [names[0]] + WithoutName(names[1..], name)
  }

  lemma WithoutNameNone(name: Named)
    ensures WithoutName([], name) == []
  {
  }

  lemma {:induction false} WithoutNameCounts(names: seq<Named>, name: Named)
    ensures multiset(WithoutName(names, name)) == multiset(names)[name := 0]
  {
    if names != [] {
      assert names == [names[0]] + names[1..];
      WithoutNameCounts(names[1..], name);
    }
  }

  lemma UnloadNames(names: seq<Named>, files: map<F.Filename, seq<Entry>>, f: F.Filename)
    requires NameIndexAgrees(names, files)
    ensures NameIndexAgrees(WithoutName(names, NameOf(f)), files - {f})
  {
    WithoutNameCounts(names, NameOf(f));
  }

  lemma {:induction false} WithoutNameConcat(a: seq<Named>, b: seq<Named>, name: Named)
    ensures WithoutName(a + b, name) == WithoutName(a, name) + WithoutName(b, name)
  {
    if a == [] {
      Neutral(b);
      Neutral(WithoutName(b, name));
    } else {
      WithoutNameConcat(a[1..], b, name);
      AppendTail(a, b);
      Associative([a[0]], WithoutName(a[1..], name), WithoutName(b, name));
    }
  }

  // ----- The table

  class TagsTable {
    // The flags, constant over a run.
    const enableFileindex: bool
    const findfile: bool
    const maxResults: nat

    var map_: seq<TagsResult>                       // multimap by tag
    var filemap: map<F.Filename, seq<TagsResult>>   // records by file
    var findfilemap: seq<Named>                     // multimap by basename
    var fileset: set<F.Filename>                    // every file ever named
    var loadedFiles: set<F.Filename>

    // The records allocated and not deleted, and the table the indexes stand for.
    ghost var live: set<TagsResult>
    ghost var files: map<F.Filename, seq<Entry>>

    ghost predicate Valid()
      reads this
    {
      && TagIndexAgrees(map_, loadedFiles, live)
      && loadedFiles == files.Keys && loadedFiles <= fileset
      && (if enableFileindex then FileIndexAgrees(map_, filemap, files) else filemap == map[])
      && (if findfile then NameIndexAgrees(findfilemap, files) else findfilemap == [])
      && Represents(View())
    }

    ghost function View(): Table
      reads this
    {
      Table(Values(map_), files)
    }

    constructor (fileindex: bool, findfile: bool, maxResults: nat)
      ensures Valid() && View() == EMPTY
      ensures enableFileindex == fileindex && this.findfile == findfile && this.maxResults == maxResults
    {
      enableFileindex, this.findfile, this.maxResults := fileindex, findfile, maxResults;
      map_, filemap, findfilemap := [], map[], [];
      fileset, loadedFiles := {}, {};
      live, files := {}, map[];
    }

    /** `delete r`: freeing a record twice would be undefined. */
    ghost method Delete(r: TagsResult)
      requires r in live
      modifies `live
      ensures live == old(live) - {r}
    {
      live := live - {r};
    }

    /** Frees the record of every entry of the tag index. */
    method FreeRecords()
      requires Distinct(map_) && live == Elements(map_)
      modifies `live
      ensures live == {}
    {
      var i := 0;
      while i < |map_|
        invariant 0 <= i <= |map_|
        invariant live == set k | i <= k < |map_| :: map_[k]
      {
        Delete(map_[i]);
        i := i + 1;
      }
    }

    method FreeData()
      requires Valid()
      modifies this
      ensures Valid() && View() == EMPTY && live == {}
    {
      hide TagIndexAgrees, FileIndexAgrees, NameIndexAgrees, Represents;
      TagIndexFacts(map_, loadedFiles, live);
      FreeRecords();
      EmptyAgrees();
      map_, filemap, findfilemap := [], map[], [];
      loadedFiles, fileset := {}, {};
      files := map[];
    }

    /** The stored filename that equals a path; None if the path fails its CHECK. */
    method FileGet(path: string) returns (f: Option<F.Filename>)
      requires Valid()
      modifies `fileset
      ensures Valid()
      ensures f == if path == "" then None else Some(F.Components(path))
      ensures fileset == old(fileset) + if path == "" then {} else {F.Components(path)}
    {
      hide TagIndexAgrees, FileIndexAgrees, NameIndexAgrees, Represents, F.Components;
      f := F.Initialize(path);
      if f.Some? {
        fileset := fileset + {f.value};
      }
    }

    method EraseName(name: Named)
      modifies `findfilemap
      ensures findfilemap == WithoutName(old(findfilemap), name)
      ensures old(findfilemap) == [] ==> findfilemap == []
    {
      hide WithoutName;
      ghost var names := findfilemap;
      ghost var done := 0;
      var i := 0;
      WithoutNameNone(name);
      assert findfilemap[..0] == [] && names[..0] == [];
      while i < |findfilemap|
        invariant 0 <= i <= |findfilemap| && 0 <= done <= |names|
        invariant findfilemap[..i] == WithoutName(names[..done], name) && findfilemap[i..] == names[done..]
        decreases |findfilemap| - i
      {
        WithoutNameNext(names, done, name);
        DropNext(findfilemap, i);
        DropNext(names, done);
        assert findfilemap[i] == findfilemap[i..][0] == names[done];
        if findfilemap[i] == name {
          RemoveAt(findfilemap, i);
          findfilemap := findfilemap[..i] + findfilemap[i + 1..];
        } else {
          TakeNext(findfilemap, i);
          i := i + 1;
        }
        done := done + 1;
      }
      assert findfilemap[..i] == findfilemap && names[..done] == names;
    }

    /** Finds the record among those with its tag, by identity, and erases it. */
    method EraseResult(r: TagsResult)
      requires Sorted(Values(map_)) && Distinct(map_) && r in map_
      modifies `map_
      ensures map_ == Except(old(map_), {r})
    {
      hide Sorted, Distinct, Except, Values;
      ghost var k :| 0 <= k < |map_| && map_[k] == r;
      RecordIsInEqualRange(map_, k);
      var j, last := LowerBound(Values(map_), r.value.tag), UpperBound(Values(map_), r.value.tag);
      while j < last
        invariant j <= k && map_ == old(map_)
      {
        if map_[j] == r {
          ExceptOne(map_, j);
          map_ := map_[..j] + map_[j + 1..];
          return;
        }
        j := j + 1;
      }
    }

    /** Unloading with the file index: each of the file's records is looked up. */
    method UnloadIndexed(records: seq<TagsResult>)
      requires Sorted(Values(map_)) && Distinct(map_) && Distinct(records)
      requires Elements(records) <= Elements(map_) <= live
      modifies `map_, `live
      ensures map_ == Except(old(map_), Elements(records))
      ensures live == old(live) - Elements(records)
    {
      hide Sorted, Distinct, Except, Values;
      ghost var m := map_;
      ghost var gone: set<TagsResult> := {};
      ExceptNone(m, {});
      var i := 0;
      while i < |records|
        invariant 0 <= i <= |records|
        invariant gone == (set k | 0 <= k < i :: records[k])
        invariant map_ == Except(m, gone) && live == old(live) - gone
      {
        var r := records[i];
        DistinctAt(records, i);
        assert r in Elements(records);
        ExceptHas(m, gone, r);
        ValuesExceptSorted(m, gone);
        DistinctExcept(m, gone);
        EraseResult(r);
        ExceptTwice(m, gone, {r});
        Delete(r);
        gone := gone + {r};
        i := i + 1;
      }
      assert gone == Elements(records);
    }

    /** Unloading without it: the whole table is scanned. */
    method UnloadScanning(f: F.Filename, ghost gone: set<TagsResult>)
      requires Distinct(map_) && Elements(map_) <= live
      requires gone == set r | r in map_ && r.value.filename == f
      modifies `map_, `live
      ensures map_ == Except(old(map_), gone)
      ensures live == old(live) - gone
    {
      hide Except, Distinct;
      ghost var m := map_;
      ghost var freed: set<TagsResult> := {};
      ghost var done := 0;
      var i := 0;
      assert m[..0] == [] && map_[..0] == [];
      ExceptNone([], gone);
      while i < |map_|
        invariant 0 <= i <= |map_| && 0 <= done <= |m|
        invariant map_[..i] == Except(m[..done], gone)
        invariant map_[i..] == m[done..]
        invariant freed == (set k | 0 <= k < done && m[k] in gone :: m[k]) && live == old(live) - freed
        decreases |map_| - i
      {
        DropNext(map_, i);
        DropNext(m, done);
        ExceptNext(m, done, gone);
        DistinctAt(m, done);
        assert m[done] in Elements(m);
        if map_[i].value.filename == f {
          Delete(map_[i]);
          freed := freed + {m[done]};
          RemoveAt(map_, i);
          Neutral(map_[..i]);
          map_ := map_[..i] + map_[i + 1..];
        } else {
          TakeNext(map_, i);
          i := i + 1;
        }
        done := done + 1;
      }
      TakeAll(map_);
      TakeAll(m);
      assert freed == gone;
    }

    /** Both ways of unloading leave the same index, the one without the file. A loaded
        file without a basename ends the program: its NULL is hashed. */
    method UnloadFile(f: F.Filename) returns (ok: bool)
      requires Valid()
      modifies this
      ensures ok <==> !(f in old(loadedFiles) && Nameless(f))
      ensures ok ==> Valid() && View() == Unload(old(View()), {f})
      ensures ok ==> fileset == old(fileset) && loadedFiles == old(loadedFiles) - {f}
      ensures ok ==> live <= old(live)
    {
      hide TagIndexAgrees, FileIndexAgrees, NameIndexAgrees, Represents, Sorted, Distinct, Except, Values, Select, WithoutName, Elements;
      UnloadRepresents(View(), {f});
      TagIndexFacts(map_, loadedFiles, live);
      if f !in loadedFiles {
        NothingOutside(map_, f);
        assert files - {f} == files;
        return true;
      }
      if Nameless(f) {
        return false;
      }
      ghost var gone := set r | r in map_ && r.value.filename == f;
      UnloadTagIndex(map_, loadedFiles, live, gone, f);
      EraseName(NameOf(f));
      if findfile {
        UnloadNames(old(findfilemap), files, f);
      }
      if enableFileindex {
        UnloadFileIndex(map_, filemap, files, gone, f);
        FileIndexFacts(map_, filemap, files, f);
        UnloadIndexed(filemap[f]);
        filemap := filemap - {f};
      } else {
        UnloadScanning(f, gone);
      }
      loadedFiles := loadedFiles - {f};
      files := files - {f};
      ok := true;
    }

    /** (deleted "path"); false when the program ends. */
    method ParseDeletedDeclaration(path: string) returns (ok: bool)
      requires Valid()
      modifies this
      ensures ok <==> Survives(Deleted(path), old(loadedFiles), findfile)
      ensures ok ==> Valid() && View() == Apply(old(View()), Deleted(path))
    {
      var f := FileGet(path);
      if f.None? {
        return false;
      }
      ok := UnloadFile(f.value);
    }

    /** Allocates the record of an item and enters it in the tag and name indexes. With
        the name index on, a file without a basename ends the program. */
    method AddTag(item: Item, f: F.Filename, language: string) returns (tag: TagsResult, ok: bool)
      requires item.Item? && f in loadedFiles && TagIndexAgrees(map_, loadedFiles, live)
      modifies `map_, `findfilemap, `live
      ensures ok <==> !(findfile && Nameless(f))
      ensures fresh(tag) && tag.value == EntryOf(item, f, language) && Holds(tag.value, item, f, language)
      ensures map_ == Inserted(old(map_), tag) && live == old(live) + {tag}
      ensures tag !in old(map_) && TagIndexAgrees(map_, loadedFiles, live)
      ensures ok ==> findfilemap == if findfile then old(findfilemap) + [NameOf(f)] else old(findfilemap)
    {
      hide TagIndexAgrees, Inserted, CStr, Truncate, Holds;
      EntryHolds(item, f, language);
      tag := new TagsResult(EntryOf(item, f, language));
      live := live + {tag};
      InsertAgrees(map_, tag, loadedFiles, live - {tag});
      assert live - {tag} == old(live);
      map_ := Inserted(map_, tag);
      ok := true;
      if findfile {
        if Nameless(f) {
          return tag, false;
        }
        findfilemap := findfilemap + [NameOf(f)];
      }
    }

    /** What holds while the items of f are entered: the records so far are in the
        tag and name indexes, and in tagsVector, which the file index gets last. */
    ghost predicate Entering(f: F.Filename, tagsVector: seq<TagsResult>, index: seq<Entry>, es: seq<Entry>)
      reads this
    {
      && loadedFiles == files.Keys + {f} && loadedFiles <= fileset
      && Values(map_) == InsertAll(index, es)
      && TagIndexAgrees(map_, loadedFiles, live)
      && (if enableFileindex then f !in filemap && FileIndexAgrees(map_, filemap[f := tagsVector], files[f := es])
          else filemap == map[])
      && (if findfile then NameIndexAgrees(findfilemap, files[f := es]) else findfilemap == [])
    }

    method EnterItem(item: Item, f: F.Filename, language: string, tagsVector: seq<TagsResult>,
                     ghost index: seq<Entry>, ghost es: seq<Entry>)
      returns (v: seq<TagsResult>, ok: bool)
      requires item.Item? && Entering(f, tagsVector, index, es)
      modifies `map_, `findfilemap, `live
      ensures ok <==> !(findfile && Nameless(f))
      ensures ok ==> Entering(f, v, index, es + [EntryOf(item, f, language)])
    {
      hide TagIndexAgrees, FileIndexAgrees, NameIndexAgrees, Inserted, Insert, InsertAll, Values;
      ghost var m, names := map_, findfilemap;
      var tag;
      tag, ok := AddTag(item, f, language);
      if !ok {
        return tagsVector, false;
      }
      ValuesInserted(m, tag);
      InsertAllAppend(index, es, tag.value);
      v := tagsVector;
      if enableFileindex {
        InsertFileIndex(m, tag, filemap, files, tagsVector, es);
        v := v + [tag];
      }
      if findfile {
        NameAgrees(names, files, f, es, tag.value);
      }
    }

    method EnterItems(f: F.Filename, language: string, contents: seq<Item>, ghost index: seq<Entry>)
      returns (tagsVector: seq<TagsResult>, ok: bool)
      requires Entering(f, [], index, [])
      modifies `map_, `findfilemap, `live
      ensures ok <==> !(findfile && Nameless(f) && EntriesOf(f, language, contents) != [])
      ensures ok ==> Entering(f, tagsVector, index, EntriesOf(f, language, contents))
    {
      hide Entering, EntriesOf;
      ghost var es: seq<Entry> := [];
      tagsVector := [];
      EntriesOfNone(f, language, index);
      assert contents[..0] == [];
      var i := 0;
      while i < |contents|
        invariant 0 <= i <= |contents|
        invariant es == EntriesOf(f, language, contents[..i]) && (findfile && Nameless(f) ==> es == [])
        invariant Entering(f, tagsVector, index, es)
      {
        TakeNext(contents, i);
        EntriesOfAppend(f, language, contents[..i], contents[i]);
        if contents[i].Item? {
          tagsVector, ok := EnterItem(contents[i], f, language, tagsVector, index, es);
          if !ok {
            EntriesOfPrefix(f, language, contents, i + 1);
            return;
          }
          es := es + [EntryOf(contents[i], f, language)];
        } else {
          Neutral(es);
        }
        i := i + 1;
      }
      TakeAll(contents);
      ok := true;
    }

    /** (file (path ...) (language ...) (contents ...)): the file's old records make
        way for the new ones. False when the program ends. */
    method ParseFileDeclaration(path: string, language: string, contents: seq<Item>) returns (ok: bool)
      requires Valid()
      modifies this
      ensures ok <==> Survives(File(path, language, contents), old(loadedFiles), findfile)
      ensures ok ==> Valid() && View() == Apply(old(View()), File(path, language, contents))
      ensures ok ==> F.Components(path) in files && HoldAll(files[F.Components(path)], contents, F.Components(path), language)
    {
      hide TagIndexAgrees, FileIndexAgrees, NameIndexAgrees, Represents, InsertAll, Values, EntriesOf, Select, CStr, F.Components, F.WellFormed;
      var filename := FileGet(path);
      if filename.None? || CStr(language) == "" {
        return false;
      }
      var f := filename.value;
      ApplyRepresents(View(), File(path, language, contents));
      ok := UnloadFile(f);
      if !ok {
        return;
      }
      EnterFile(map_, filemap, findfilemap, files, loadedFiles, live, f);
      EntriesOfNone(f, language, Values(map_));
      loadedFiles := loadedFiles + {f};
      var tagsVector;
      tagsVector, ok := EnterItems(f, language, contents, Values(map_));
      if !ok {
        return;
      }
      if enableFileindex {
        // hash_map::insert keeps an entry that is there already.
        if f !in filemap {
          filemap := filemap[f := tagsVector];
        }
      }
      files := files[f := EntriesOf(f, language, contents)];
      EntriesHold(f, language, contents);
      return true;
    }

    /** Reads declarations in order; false when one of them ends the program, or a
        header stands behind a file. */
    method LoadTagFile(ds: seq<Declaration>) returns (ok: bool)
      requires Valid()
      modifies this
      ensures ok <==> Acceptable(ds, false, old(loadedFiles), findfile)
      ensures ok ==> Valid() && View() == ApplyAll(old(View()), ds)
      ensures ok ==> LastHeld(files, ds)
    {
      hide LastHeld, Apply, ApplyAll, Acceptable, Survives, LoadedAfter, Valid;
      var filesLoaded := false;
      var i := 0;
      TakeAll(ds);
      while i < |ds|
        invariant 0 <= i <= |ds| && Valid()
        invariant Acceptable(ds, false, old(loadedFiles), findfile) <==> Acceptable(ds[i..], filesLoaded, loadedFiles, findfile)
        invariant ApplyAll(View(), ds[i..]) == ApplyAll(old(View()), ds)
      {
        DropNext(ds, i);
        OneMore(View(), ds[i..], filesLoaded, loadedFiles, findfile);
        TableFacts(this);
        ApplyLoads(View(), ds[i], findfile);
        ok := true;
        match ds[i] {
          case File(path, language, contents) =>
            filesLoaded := true;
            ok := ParseFileDeclaration(path, language, contents);
          case Deleted(path) =>
            filesLoaded := true;
            ok := ParseDeletedDeclaration(path);
          case Header =>
            ok := !filesLoaded;
            HeaderChangesNothing(View());
        }
        if !ok {
          return;
        }
        TableFacts(this);
        i := i + 1;
      }
      NoMore(View(), filesLoaded, loadedFiles, findfile);
      LoadedRecords(old(View()), ds);
      ok := true;
    }

    method ReloadTagFile(ds: seq<Declaration>) returns (ok: bool)
      requires Valid()
      modifies this
      ensures ok <==> Acceptable(ds, false, {}, findfile)
      ensures ok ==> Valid() && View() == Perform(old(View()), Reload(ds))
    {
      FreeData();
      assert loadedFiles == View().files.Keys == {};
      ok := LoadTagFile(ds);
    }

    method UpdateTagFile(ds: seq<Declaration>) returns (ok: bool)
      requires Valid()
      modifies this
      ensures ok <==> Acceptable(ds, false, old(loadedFiles), findfile)
      ensures ok ==> Valid() && View() == Perform(old(View()), Update(ds))
    {
      ok := LoadTagFile(ds);
    }

    /** Visits the stored filenames in no particular order. */
    method UnloadFilesInDir(dirname: string) returns (ok: bool)
      requires Valid()
      modifies this
      ensures ok <==> forall f :: f in FilesInDir(old(loadedFiles), dirname) ==> !Nameless(f)
      ensures ok ==> Valid() && View() == Perform(old(View()), UnloadDir(dirname))
    {
      hide Represents, Values, Select, Unload, FilesInDir, Nameless, Valid;
      ghost var before := View();
      ghost var unloaded: set<F.Filename> := {};
      var left := fileset;
      TableFacts(this);
      InDirNone(fileset, dirname);
      UnloadNothing(before);
      while left != {}
        invariant Valid() && left <= fileset == old(fileset)
        invariant View() == Unload(before, unloaded) && loadedFiles == old(loadedFiles) - unloaded
        invariant unloaded == FilesInDir(fileset - left, dirname)
        invariant forall f :: f in unloaded && f in old(loadedFiles) ==> !Nameless(f)
        decreases |left|
      {
        var f :| f in left;
        InDirNext(fileset, left, f, dirname);
        InDirMember(old(loadedFiles), f, dirname);
        left := left - {f};
        if dirname <= F.StrOf(f) {
          ok := UnloadFile(f);
          if !ok {
            return;
          }
          UnloadTwice(before, unloaded, {f});
          unloaded := unloaded + {f};
        }
      }
      assert fileset - left == fileset;
      InDirLoaded(before.files.Keys, fileset, dirname);
      UnloadLoadedOnly(before, FilesInDir(fileset, dirname), FilesInDir(before.files.Keys, dirname));
      ok := true;
    }

    /** Records with exactly this tag, at most maxResults of them. */
    method FindTags(tag: string) returns (retval: seq<TagsResult>)
      requires Valid()
      ensures Values(retval) == FirstResults(Select(View().index, HasTag(tag)), maxResults)
      ensures forall r :: r in retval ==> r in live
    {
      var index := Values(map_);
      EqualRange(index, tag);
      var first, last := LowerBound(index, tag), UpperBound(index, tag);
      retval := Collect(map_, first, last);
    }

    /** Without regexp characters: the records whose tag starts with `tag`. */
    method FindPrefixTags(tag: string) returns (retval: seq<TagsResult>)
      requires Valid()
      ensures Values(retval) == FirstResults(Select(View().index, HasPrefix(tag)), maxResults)
      ensures forall r :: r in retval ==> r in live
    {
      PrefixRange(Values(map_), tag);
      retval := ScanPrefix(LowerBound(Values(map_), tag), tag);
    }

    method ScanPrefix(first: nat, tag: string) returns (retval: seq<TagsResult>)
      requires first <= |map_|
      ensures Values(retval)
           == FirstResults(Values(map_)[first..PrefixEnd(Values(map_), first, tag)], maxResults)
      ensures forall r :: r in retval ==> r in map_
    {
      hide PrefixEnd, FirstResults;
      ghost var last := PrefixEnd(Values(map_), first, tag);
      retval := [];
      var pos, resultcount := first, 0;
      while pos < |map_| && resultcount < maxResults && tag <= map_[pos].value.tag
        invariant first <= pos <= last && resultcount == pos - first <= maxResults
        invariant retval == map_[first..pos]
      {
        retval := retval + [map_[pos]];
        resultcount := resultcount + 1;
        pos := pos + 1;
      }
      ValuesSlice(map_, first, pos);
      FirstOfSlice(Values(map_), first, pos, last, maxResults);
    }

    /** The loop over a range of results. */
    method Collect(results: seq<TagsResult>, first: nat, last: nat) returns (retval: seq<TagsResult>)
      requires first <= last <= |results|
      ensures Values(retval) == FirstResults(Values(results)[first..last], maxResults)
      ensures forall r :: r in retval ==> r in results
    {
      hide FirstResults;
      retval := [];
      var pos, resultcount := first, 0;
      while pos != last && resultcount < maxResults
        invariant first <= pos <= last && resultcount == pos - first <= maxResults
        invariant retval == results[first..pos]
      {
        retval := retval + [results[pos]];
        resultcount := resultcount + 1;
        pos := pos + 1;
      }
      ValuesSlice(results, first, pos);
      FirstOfSlice(Values(results), first, pos, last, maxResults);
    }

    /** The records of one file, in the order of its declaration; nothing without
        the file index. */
    method FindTagsByFile(filename: string) returns (retval: Option<seq<TagsResult>>)
      requires Valid()
      ensures retval.None? <==> filename == ""
      ensures retval.Some? && enableFileindex ==>
                && Values(retval.value) == FirstResults(Records(View(), F.Components(filename)), maxResults)
                && forall r :: r in retval.value ==> r in live
      ensures retval.Some? && !enableFileindex ==> retval.value == []
    {
      var queryFile := F.Initialize(filename);
      if queryFile.None? {
        return None;
      }
      hide TagIndexAgrees, FileIndexAgrees, NameIndexAgrees, Represents, Values, Distinct;
      var f := queryFile.value;
      TagIndexFacts(map_, loadedFiles, live);
      var found: seq<TagsResult> := [];
      if f in filemap {
        FileIndexFacts(map_, filemap, files, f);
        found := Collect(filemap[f], 0, |filemap[f]|);
        TakeAll(files[f]);
        InElements(filemap[f]);
      } else {
        if enableFileindex { FileIndexKeys(map_, filemap, files); }
        ValuesNone();
      }
      retval := Some(found);
    }

    /** The names of the loaded files with this basename. The limit counts one
        entry per record, so it can cut files off; below it none is missing. */
    method FindFile(filename: string) returns (retval: set<string>)
      requires Valid()
      ensures retval <= NamesOf(filename) && (!findfile ==> retval == {})
      ensures findfile && |EntriesNamed(findfilemap, filename)| <= maxResults ==> retval == NamesOf(filename)
    {
      hide TagIndexAgrees, FileIndexAgrees, NameIndexAgrees, Represents, F.BasenameOf;
      var range := EntriesNamed(findfilemap, filename);
      retval := {};
      var i := 0;
      while i < |range| && i < maxResults
        invariant 0 <= i <= |range|
        invariant retval == set k | 0 <= k < i :: F.StrOf(range[k].1)
      {
        retval := retval + {F.StrOf(range[i].1)};
        i := i + 1;
      }
      if findfile {
        EntriesFound(findfilemap, files, filename);
        forall k | 0 <= k < |range|
          ensures F.StrOf(range[k].1) in NamesOf(filename)
        {
          assert range[k] in range;
        }
        forall f | f in files && F.BasenameOf(f) == Some(filename) && files[f] != []
          ensures exists k :: 0 <= k < |range| && range[k].1 == f
        {
          var k :| 0 <= k < |range| && range[k] == (Some(filename), f);
        }
      } else {
        assert range == [];
      }
    }

    /** The loaded files that have a record and this basename. */
    ghost function NamesOf(filename: string): set<string>
      reads this
    {
      set f | f in files && F.BasenameOf(f) == Some(filename) && files[f] != [] :: F.StrOf(f)
    }
  }

  /** equal_range of the basename index. */
  function EntriesNamed(names: seq<Named>, filename: string): (r: seq<Named>)
    ensures forall n :: n in r <==> n in names && n.0 == Some(filename)
  {
    if names == [] then []
    else if names[0].0 == Some(filename) then [names[0]] + EntriesNamed(names[1..], filename)
    else EntriesNamed(names[1..], filename)
  }

  /** These entries are those of the loaded files that have a record and this basename. */
  lemma EntriesFound(names: seq<Named>, files: map<F.Filename, seq<Entry>>, filename: string)
    requires NameIndexAgrees(names, files)
    ensures forall n :: n in EntriesNamed(names, filename) ==>
              n.1 in files && F.BasenameOf(n.1) == Some(filename) && files[n.1] != []
    ensures forall f :: f in files && F.BasenameOf(f) == Some(filename) && files[f] != [] ==>
              (Some(filename), f) in EntriesNamed(names, filename)
  {
    hide F.BasenameOf;
    forall n | n in EntriesNamed(names, filename)
      ensures n.1 in files && F.BasenameOf(n.1) == Some(filename) && files[n.1] != []
    {
      assert n in multiset(names);
    }
    forall f | f in files && F.BasenameOf(f) == Some(filename) && files[f] != []
      ensures (Some(filename), f) in EntriesNamed(names, filename)
    {
      assert multiset(names)[NameOf(f)] > 0;
    }
  }

  /** Basename() is NULL: all components are empty, as for the paths "/" and ".". */
  predicate Nameless(f: F.Filename) {
    F.BasenameOf(f).None?
  }

  /** The program survives a declaration while these files are loaded: a path and a
      language are given, a file without a basename is not loaded yet, and none of its
      records enters the name index. */
  predicate Survives(d: Declaration, loaded: set<F.Filename>, findfile: bool) {
    match d
    case Header => true
    case Deleted(path) => path != "" && !(F.Components(path) in loaded && Nameless(F.Components(path)))
    case File(path, language, contents) =>
      var f := F.Components(path);
      && path != "" && CStr(language) != "" && !(f in loaded && Nameless(f))
      && !(findfile && Nameless(f) && EntriesOf(f, language, contents) != [])
  }

  /** The files that are loaded behind a declaration. */
  function LoadedAfter(d: Declaration, loaded: set<F.Filename>): set<F.Filename> {
    match d
    case Header => loaded
    case Deleted(path) => loaded - {F.Components(path)}
    case File(path, _, _) => loaded + {F.Components(path)}
  }

  /** A tag file that the program survives: headers come first, and every declaration can
      be survived where it stands. */
  predicate Acceptable(ds: seq<Declaration>, filesLoaded: bool, loaded: set<F.Filename>, findfile: bool) {
    if ds == [] then true
    else
      && !(ds[0].Header? && filesLoaded) && Survives(ds[0], loaded, findfile)
      && Acceptable(ds[1..], filesLoaded || !ds[0].Header?, LoadedAfter(ds[0], loaded), findfile)
  }

  lemma NamelessExactly(f: F.Filename)
    ensures Nameless(f) <==> forall k :: 0 <= k < |f| ==> f[k] == ""
  {
  }

  /** A declaration ends the program exactly for an empty path, a loaded file without a
      basename, an empty language, and a tag of a file without a basename when basenames
      are indexed. */
  lemma SurvivesExactly(d: Declaration, loaded: set<F.Filename>, findfile: bool)
    requires !d.Header?
    ensures var f := F.Components(d.path); var nameless := forall k :: 0 <= k < |f| ==> f[k] == "";
      !Survives(d, loaded, findfile) <==>
        || d.path == "" || (f in loaded && nameless)
        || (d.File? && (CStr(d.language) == "" || (findfile && nameless && exists i :: 0 <= i < |d.contents| && d.contents[i].Item?)))
  {
    hide F.Components, EntriesOf, CStr;
    NamelessExactly(F.Components(d.path));
    if d.File? { SomeEntries(F.Components(d.path), d.language, d.contents); }
  }

  lemma {:induction false} SomeEntries(f: F.Filename, language: string, contents: seq<Item>)
    ensures EntriesOf(f, language, contents) != [] <==> exists i :: 0 <= i < |contents| && contents[i].Item?
  {
    if contents != [] {
      SomeEntries(f, language, contents[1..]);
      if i :| 0 <= i < |contents| && contents[i].Item? { assert i > 0 ==> contents[1..][i - 1].Item?; }
    }
  }

  /** The files that are loaded in front of the k-th declaration. */
  function LoadedBefore(ds: seq<Declaration>, k: nat, loaded: set<F.Filename>): set<F.Filename>
    requires k <= |ds|
  {
    if k == 0 then loaded else LoadedAfter(ds[k - 1], LoadedBefore(ds, k - 1, loaded))
  }

  /** They are those whose last declaration so far was one of a file, or that were loaded
      before and have not been deleted. */
  lemma {:induction false} LoadedBeforeExactly(ds: seq<Declaration>, k: nat, loaded: set<F.Filename>, f: F.Filename)
    requires k <= |ds|
    ensures f in LoadedBefore(ds, k, loaded) <==>
      || (f in loaded && forall i :: 0 <= i < k ==> !(ds[i].Deleted? && F.Components(ds[i].path) == f))
      || (exists j :: 0 <= j < k && ds[j].File? && F.Components(ds[j].path) == f
                      && forall i :: j < i < k ==> !(ds[i].Deleted? && F.Components(ds[i].path) == f))
  {
    hide F.Components;
    if k > 0 { LoadedBeforeExactly(ds, k - 1, loaded, f); }
  }

  /** A tag file is survived exactly if every declaration is, given what is loaded by then,
      and no header stands behind another declaration. */
  lemma {:induction false} AcceptableExactly(ds: seq<Declaration>, filesLoaded: bool, loaded: set<F.Filename>, findfile: bool)
    ensures Acceptable(ds, filesLoaded, loaded, findfile) <==>
      && (forall k :: 0 <= k < |ds| ==> Survives(ds[k], LoadedBefore(ds, k, loaded), findfile))
      && (forall k :: 0 <= k < |ds| && ds[k].Header? ==> !filesLoaded && forall j :: 0 <= j < k ==> ds[j].Header?)
    decreases |ds|
  {
    hide Survives, LoadedAfter;
    if ds != [] {
      var next := LoadedAfter(ds[0], loaded);
      AcceptableExactly(ds[1..], filesLoaded || !ds[0].Header?, next, findfile);
      forall k | 0 < k < |ds|
        ensures ds[k] == ds[1..][k - 1] && LoadedBefore(ds, k, loaded) == LoadedBefore(ds[1..], k - 1, next)
      {
        LoadedFrom(ds, k, loaded);
      }
    }
  }

  lemma {:induction false} LoadedFrom(ds: seq<Declaration>, k: nat, loaded: set<F.Filename>)
    requires 0 < k <= |ds|
    ensures LoadedBefore(ds, k, loaded) == LoadedBefore(ds[1..], k - 1, LoadedAfter(ds[0], loaded))
  {
    hide LoadedAfter;
    if k > 1 {
      LoadedFrom(ds, k - 1, loaded);
      assert ds[1..][k - 2] == ds[k - 1];
    }
  }

  lemma OneMore(t: Table, ds: seq<Declaration>, filesLoaded: bool, loaded: set<F.Filename>, findfile: bool)
    requires ds != []
    ensures ApplyAll(t, ds) == ApplyAll(Apply(t, ds[0]), ds[1..])
    ensures Acceptable(ds, filesLoaded, loaded, findfile) <==>
      && !(ds[0].Header? && filesLoaded) && Survives(ds[0], loaded, findfile)
      && Acceptable(ds[1..], filesLoaded || !ds[0].Header?, LoadedAfter(ds[0], loaded), findfile)
  {
  }

  lemma NoMore(t: Table, filesLoaded: bool, loaded: set<F.Filename>, findfile: bool)
    ensures ApplyAll(t, []) == t && Acceptable([], filesLoaded, loaded, findfile)
  {
  }

  lemma ApplyLoads(t: Table, d: Declaration, findfile: bool)
    ensures Apply(t, d).files.Keys == LoadedAfter(d, t.files.Keys)
    ensures d.Header? ==> Survives(d, t.files.Keys, findfile)
  {
  }

  lemma {:induction false} EntriesOfPrefix(f: F.Filename, language: string, contents: seq<Item>, k: nat)
    requires k <= |contents|
    ensures EntriesOf(f, language, contents[..k]) != [] ==> EntriesOf(f, language, contents) != []
  {
    if k > 0 {
      assert contents[..k][1..] == contents[1..][..k - 1];
      EntriesOfPrefix(f, language, contents[1..], k - 1);
    }
  }

  function FirstResults(es: seq<Entry>, n: nat): seq<Entry> {
    if |es| <= n then es else es[..n]
  }

  lemma FirstOfSlice(es: seq<Entry>, first: nat, pos: nat, last: nat, n: nat)
    requires first <= pos <= last <= |es| && pos - first == if last - first <= n then last - first else n
    ensures FirstResults(es[first..last], n) == es[first..pos]
  {
  }

  lemma {:induction false} ValuesSlice(rs: seq<TagsResult>, lo: nat, hi: nat)
    requires lo <= hi <= |rs|
    ensures Values(rs[lo..hi]) == Values(rs)[lo..hi]
  {
  }

  lemma EntriesOfNone(f: F.Filename, language: string, m: seq<Entry>)
    ensures EntriesOf(f, language, []) == [] && InsertAll(m, []) == m
  {
  }

  lemma HeaderChangesNothing(t: Table)
    ensures Apply(t, Header) == t
  {
  }

  /** A file that is not loaded may be entered without records. */
  lemma EnterFile(m: seq<TagsResult>, filemap: map<F.Filename, seq<TagsResult>>, names: seq<Named>,
                  files: map<F.Filename, seq<Entry>>, loaded: set<F.Filename>, live: set<TagsResult>, f: F.Filename)
    requires TagIndexAgrees(m, loaded, live) && f !in loaded && loaded == files.Keys
    ensures TagIndexAgrees(m, loaded + {f}, live)
    ensures FileIndexAgrees(m, filemap, files) ==> f !in filemap && FileIndexAgrees(m, filemap[f := []], files[f := []])
    ensures NameIndexAgrees(names, files) ==> NameIndexAgrees(names, files[f := []])
  {
    if FileIndexAgrees(m, filemap, files) {
      var fm, fs := filemap[f := []], files[f := []];
      assert fm.Keys == fs.Keys;
      forall g | g in fm
        ensures FileAgrees(m, g, fm[g], fs[g])
      {
        if g != f { assert FileAgrees(m, g, filemap[g], files[g]); }
      }
    }
  }

  lemma {:induction false} SelectEverything(m: seq<Entry>)
    ensures Select(m, Outside({})) == m
  {
    if m != [] {
      SelectEverything(m[1..]);
      HeadTail(m);
    }
  }

  lemma {:induction false} OutsideTwice(m: seq<Entry>, a: set<F.Filename>, b: set<F.Filename>)
    ensures Select(Select(m, Outside(a)), Outside(b)) == Select(m, Outside(a + b))
  {
    if m != [] {
      OutsideTwice(m[1..], a, b);
      if m[0].filename !in a { ConsTail(m[0], Select(m[1..], Outside(a))); }
    }
  }

  lemma TableFacts(t: TagsTable)
    requires t.Valid()
    ensures t.View().files.Keys == t.loadedFiles <= t.fileset && Represents(t.View())
  {
  }

  lemma InDirMember(files: set<F.Filename>, f: F.Filename, dirname: string)
    ensures f in FilesInDir(files, dirname) <==> f in files && dirname <= F.StrOf(f)
  {
  }

  lemma InDirNone(files: set<F.Filename>, dirname: string)
    ensures FilesInDir(files - files, dirname) == {}
  {
  }

  /** One more file visited. */
  lemma InDirNext(files: set<F.Filename>, left: set<F.Filename>, f: F.Filename, dirname: string)
    requires f in left && left <= files
    ensures FilesInDir(files - (left - {f}), dirname)
         == FilesInDir(files - left, dirname) + if dirname <= F.StrOf(f) then {f} else {}
  {
    assert files - (left - {f}) == (files - left) + {f};
  }

  lemma InDirLoaded(loaded: set<F.Filename>, files: set<F.Filename>, dirname: string)
    requires loaded <= files
    ensures FilesInDir(loaded, dirname) == FilesInDir(files, dirname) * loaded
  {
  }

  lemma UnloadNothing(t: Table)
    ensures Unload(t, {}) == t
  {
    SelectEverything(t.index);
    assert t.files - {} == t.files;
  }

  lemma UnloadTwice(t: Table, a: set<F.Filename>, b: set<F.Filename>)
    ensures Unload(Unload(t, a), b) == Unload(t, a + b)
  {
    OutsideTwice(t.index, a, b);
    assert t.files - a - b == t.files - (a + b);
  }

  /** Files that are not loaded make no difference. */
  lemma UnloadLoadedOnly(t: Table, a: set<F.Filename>, b: set<F.Filename>)
    requires Represents(t) && b <= a && a - b !! t.files.Keys
    ensures Unload(t, a) == Unload(t, b)
  {
    assert t.files - a == t.files - b;
    SameOutside(t, t.index, a, b);
  }

  lemma {:induction false} SameOutside(t: Table, m: seq<Entry>, a: set<F.Filename>, b: set<F.Filename>)
    requires Represents(t) && b <= a && a - b !! t.files.Keys
    requires forall k :: 0 <= k < |m| ==> m[k] in t.index
    ensures Select(m, Outside(a)) == Select(m, Outside(b))
  {
    if m != [] {
      SameOutside(t, m[1..], a, b);
      IndexedFilesAreLoaded(t, t.index, m[0]);
    }
  }

  /** The index holds records of loaded files only. */
  lemma IndexedFilesAreLoaded(t: Table, m: seq<Entry>, e: Entry)
    requires Represents(t) && m == t.index && e in m
    ensures e.filename in t.files
  {
    SelectedIsThere(m, e);
  }

  lemma {:induction false} SelectedIsThere(m: seq<Entry>, e: Entry)
    requires e in m
    ensures e in Select(m, InFile(e.filename))
  {
    if m[0] != e { SelectedIsThere(m[1..], e); }
  }

  lemma DistinctAt(rs: seq<TagsResult>, i: nat)
    requires Distinct(rs) && i < |rs|
    ensures rs[i] !in set k | 0 <= k < i :: rs[k]
  {
  }

  lemma ExceptHas(m: seq<TagsResult>, gone: set<TagsResult>, r: TagsResult)
    requires r in Elements(m) && r !in gone
    ensures r in Except(m, gone)
  {
  }

  lemma TagIndexFacts(m: seq<TagsResult>, loaded: set<F.Filename>, live: set<TagsResult>)
    requires TagIndexAgrees(m, loaded, live)
    ensures Sorted(Values(m)) && Distinct(m) && Elements(m) == live
    ensures forall r :: r in m ==> r.value.filename in loaded
  {
  }

  lemma FileIndexFacts(m: seq<TagsResult>, filemap: map<F.Filename, seq<TagsResult>>, files: map<F.Filename, seq<Entry>>,
                       f: F.Filename)
    requires FileIndexAgrees(m, filemap, files) && f in files
    ensures f in filemap && Distinct(filemap[f]) && Values(filemap[f]) == files[f]
    ensures Elements(filemap[f]) <= Elements(m)
    ensures Elements(filemap[f]) == set r | r in m && r.value.filename == f
  {
    assert FileAgrees(m, f, filemap[f], files[f]);
  }

  lemma FileIndexKeys(m: seq<TagsResult>, filemap: map<F.Filename, seq<TagsResult>>, files: map<F.Filename, seq<Entry>>)
    requires FileIndexAgrees(m, filemap, files)
    ensures filemap.Keys == files.Keys
  {
  }

  lemma InElements(rs: seq<TagsResult>)
    ensures forall r :: r in rs ==> r in Elements(rs)
  {
  }

  lemma ValuesNone()
    ensures Values([]) == []
  {
  }

  lemma EmptyAgrees()
    ensures TagIndexAgrees([], {}, {}) && FileIndexAgrees([], map[], map[]) && NameIndexAgrees([], map[])
    ensures Values([]) == [] && Represents(EMPTY)
  {
  }

  lemma WithoutNameNext(names: seq<Named>, k: nat, name: Named)
    requires k < |names|
    ensures WithoutName(names[..k + 1], name) == WithoutName(names[..k], name) + if names[k] == name then [] else [names[k]]
  {
    var last: seq<Named> := [names[k]];
    assert names[..k + 1] == names[..k] + last;
    WithoutNameConcat(names[..k], last, name);
    assert last[1..] == [];
  }

  lemma {:induction false} NothingOutside(m: seq<TagsResult>, f: F.Filename)
    requires forall r :: r in m ==> r.value.filename != f
    ensures Select(Values(m), Outside({f})) == Values(m)
  {
    if m != [] {
      NothingOutside(m[1..], f);
      assert Values(m)[1..] == Values(m[1..]);
      assert m[0] in m;
    }
  }

  predicate SortedByTag(m: seq<TagsResult>) {
    forall i, j :: 0 <= i < j < |m| ==> !Less(m[j].value.tag, m[i].value.tag)
  }

  lemma SortedValues(m: seq<TagsResult>)
    ensures Sorted(Values(m)) <==> SortedByTag(m)
  {
    assert SortedByTag(m) ==> forall i, j :: 0 <= i < j < |m| ==> !Less(Values(m)[j].tag, Values(m)[i].tag);
    if Sorted(Values(m)) {
      forall i, j | 0 <= i < j < |m|
        ensures !Less(m[j].value.tag, m[i].value.tag)
      {
        assert !Less(Values(m)[j].tag, Values(m)[i].tag);
      }
    }
  }

  lemma {:induction false} ExceptSortedByTag(m: seq<TagsResult>, gone: set<TagsResult>)
    requires SortedByTag(m)
    ensures SortedByTag(Except(m, gone))
  {
    if m != [] {
      var rest := Except(m[1..], gone);
      ExceptSortedByTag(m[1..], gone);
      forall k | 0 <= k < |rest|
        ensures !Less(rest[k].value.tag, m[0].value.tag)
      {
        assert rest[k] in m[1..];
      }
    }
  }

  lemma ValuesExceptSorted(m: seq<TagsResult>, gone: set<TagsResult>)
    requires Sorted(Values(m))
    ensures Sorted(Values(Except(m, gone)))
  {
    SortedValues(m);
    ExceptSortedByTag(m, gone);
    SortedValues(Except(m, gone));
  }

  lemma ExceptNext(m: seq<TagsResult>, k: nat, gone: set<TagsResult>)
    requires k < |m|
    ensures Except(m[..k + 1], gone) == Except(m[..k], gone) + if m[k] in gone then [] else [m[k]]
  {
    assert m[..k + 1] == m[..k] + [m[k]];
    ExceptConcat(m[..k], [m[k]], gone);
    assert [m[k]][1..] == [];
  }
}
