/** The s-expression protocol of a tag server (tagsrequesthandler.cc): the text of
    a reply, and the tree a client reads from it. */
module TagsReplies {
  import opened CStrings
  import opened Sequences
  import opened Numerals
  import opened SExpressions
  import opened RoundTrip
  import opened Framing
  import E = TagEntries
  import F = Filenames
  import T = TagsTables

  // ----- Keys

  const TAG: cstring := "tag"
  const SNIPPET: cstring := "snippet"
  const FILENAME: cstring := "filename"
  const LINENO: cstring := "lineno"
  const OFFSET: cstring := "offset"
  const VALUE: cstring := "value"
  const DIRECTORY_DISTANCE: cstring := "directory-distance"
  const SERVER_START_TIME: cstring := "server-start-time"
  const SEQUENCE_NUMBER: cstring := "sequence-number"

  lemma TagIsKey()
    ensures Key(TAG)
  {
    LowerKey(TAG);
  }

  lemma SnippetIsKey()
    ensures Key(SNIPPET)
  {
    LowerKey(SNIPPET);
  }

  lemma FilenameIsKey()
    ensures Key(FILENAME)
  {
    LowerKey(FILENAME);
  }

  lemma LinenoIsKey()
    ensures Key(LINENO)
  {
    LowerKey(LINENO);
  }

  lemma OffsetIsKey()
    ensures Key(OFFSET)
  {
    LowerKey(OFFSET);
  }

  lemma DirectoryDistanceIsKey()
    ensures Key(DIRECTORY_DISTANCE)
  {
    LowerKey(DIRECTORY_DISTANCE);
  }

  lemma ServerStartTimeIsKey()
    ensures Key(SERVER_START_TIME)
  {
    LowerKey(SERVER_START_TIME);
  }

  lemma SequenceNumberIsKey()
    ensures Key(SEQUENCE_NUMBER)
  {
    LowerKey(SEQUENCE_NUMBER);
  }

  // ----- Records

  function Quoted(s: string): string {
    "\"" + CEscapeAll(CStr(s)) + "\""
  }

  /** The attributes of one record, as printed. */
  function Fields(e: E.Entry): seq<string> {
    [Entry(TAG, Quoted(e.tag)), Entry(SNIPPET, Quoted(e.linerep)), Entry(FILENAME, Quoted(F.StrOf(e.filename))),
     Entry(LINENO, Decimal(e.lineno)), Entry(OFFSET, Decimal(e.charno)), Entry(DIRECTORY_DISTANCE, Decimal(0))]
  }

  /** ... and as read. */
  function FieldTrees(e: E.Entry): seq<SExp> {
    [EntryTree(TAG, StrTree(e.tag)), EntryTree(SNIPPET, StrTree(e.linerep)), EntryTree(FILENAME, StrTree(F.StrOf(e.filename))),
     EntryTree(LINENO, Int(e.lineno)), EntryTree(OFFSET, Int(e.charno)), EntryTree(DIRECTORY_DISTANCE, Int(0))]
  }

  function StrTree(s: string): SExp {
    Str(Soften(CStr(s)))
  }

  function RecordText(e: E.Entry): string {
    "(" + Spaced(Fields(e)) + ")"
  }

  function RecordTree(e: E.Entry): SExp {
    Chain(FieldTrees(e), Nil)
  }

  function Passing(es: seq<E.Entry>, test: E.Entry -> bool): seq<E.Entry> {
    if es == [] then [] else if test(es[0]) then [es[0]] + Passing(es[1..], test) else Passing(es[1..], test)
  }

  lemma {:induction false} PassingLast(es: seq<E.Entry>, e: E.Entry, test: E.Entry -> bool)
    ensures Passing(es + [e], test) == Passing(es, test) + if test(e) then [e] else []
  {
    if es == [] {
      Neutral([e]);
    } else {
      AppendTail(es, [e]);
      PassingLast(es[1..], e, test);
    }
  }

  /** The records that pass are those at these positions, in their order. */
  lemma {:induction false} PassingAt(es: seq<E.Entry>, test: E.Entry -> bool) returns (at: seq<nat>)
    ensures |Passing(es, test)| == |at| && forall i, j :: 0 <= i < j < |at| ==> at[i] < at[j]
    ensures forall p: nat :: p in at <==> p < |es| && test(es[p])
    ensures forall k :: 0 <= k < |at| ==> at[k] in at && Passing(es, test)[k] == es[at[k]]
  {
    at := [];
    if es != [] {
      var most, last := es[..|es| - 1], |es| - 1;
      SplitLast(es);
      PassingLast(most, es[last], test);
      hide Passing;
      at := PassingAt(most, test);
      if test(es[last]) { at := at + [last]; }
    }
  }

  function RecordTexts(es: seq<E.Entry>): (r: seq<string>)
    ensures |r| == |es|
  {
    if es == [] then [] else [RecordText(es[0])] + RecordTexts(es[1..])
  }

  function RecordTrees(es: seq<E.Entry>): (r: seq<SExp>)
    ensures |r| == |es|
    ensures forall k :: 0 <= k < |r| ==> r[k] == RecordTree(es[k])
  {
    if es == [] then [] else [RecordTree(es[0])] + RecordTrees(es[1..])
  }

  lemma StringField(key: cstring, s: string)
    requires Key(key)
    ensures Denotes(Entry(key, Quoted(s)), EntryTree(key, StrTree(s)))
  {
    StringDenotes(s);
    EntryDenotes(key, Quoted(s), StrTree(s));
  }

  lemma IntField(key: cstring, i: int32)
    requires Key(key)
    ensures Denotes(Entry(key, Decimal(i)), EntryTree(key, Int(i)))
  {
    IntDenotes(i);
    EntryDenotes(key, Decimal(i), Int(i));
  }

  lemma SixDenote(t: string, s: string, n: string, l: string, o: string, d: string,
                  t': SExp, s': SExp, n': SExp, l': SExp, o': SExp, d': SExp)
    requires Denotes(t, t') && Denotes(s, s') && Denotes(n, n') && Denotes(l, l') && Denotes(o, o') && Denotes(d, d')
    ensures DenotesAnywhere("(" + Spaced([t, s, n, l, o, d]) + ")", Chain([t', s', n', l', o', d'], Nil))
  {
    hide Denotes, DenotesAnywhere, Spaced, Chain;
    SpacedList([t, s, n, l, o, d], [t', s', n', l', o', d']);
  }

  lemma RecordDenotes(e: E.Entry)
    ensures DenotesAnywhere(RecordText(e), RecordTree(e))
  {
    hide Entry, EntryTree, Denotes, DenotesAnywhere, StrTree, Quoted, Spaced, Chain, Key;
    TagIsKey();
    SnippetIsKey();
    FilenameIsKey();
    LinenoIsKey();
    OffsetIsKey();
    DirectoryDistanceIsKey();
    StringField(TAG, e.tag);
    StringField(SNIPPET, e.linerep);
    StringField(FILENAME, F.StrOf(e.filename));
    IntField(LINENO, e.lineno);
    IntField(OFFSET, e.charno);
    IntField(DIRECTORY_DISTANCE, 0);
    SixDenote(Entry(TAG, Quoted(e.tag)), Entry(SNIPPET, Quoted(e.linerep)), Entry(FILENAME, Quoted(F.StrOf(e.filename))),
              Entry(LINENO, Decimal(e.lineno)), Entry(OFFSET, Decimal(e.charno)), Entry(DIRECTORY_DISTANCE, Decimal(0)),
              EntryTree(TAG, StrTree(e.tag)), EntryTree(SNIPPET, StrTree(e.linerep)), EntryTree(FILENAME, StrTree(F.StrOf(e.filename))),
              EntryTree(LINENO, Int(e.lineno)), EntryTree(OFFSET, Int(e.charno)), EntryTree(DIRECTORY_DISTANCE, Int(0)));
  }

  // ----- Which records arrive as they are in the table

  /** A record with the table's own strings. */
  function OwnRecord(e: E.Entry): SExp {
    Chain([EntryTree(TAG, Str(e.tag)), EntryTree(SNIPPET, Str(e.linerep)), EntryTree(FILENAME, Str(F.StrOf(e.filename))),
           EntryTree(LINENO, Int(e.lineno)), EntryTree(OFFSET, Int(e.charno)), EntryTree(DIRECTORY_DISTANCE, Int(0))], Nil)
  }

  function OwnRecords(es: seq<E.Entry>): (r: seq<SExp>)
    ensures |r| == |es|
    ensures forall k :: 0 <= k < |r| ==> r[k] == OwnRecord(es[k])
  {
    if es == [] then [] else [OwnRecord(es[0])] + OwnRecords(es[1..])
  }

  /** No newline, carriage return, tab or NUL. */
  predicate Hard(s: string) {
    forall k :: 0 <= k < |s| ==> !Soft(s[k])
  }

  predicate Intact(e: E.Entry) {
    Hard(e.tag) && Hard(e.linerep) && Hard(F.StrOf(e.filename))
  }

  lemma StringIsIntact(s: string)
    ensures StrTree(s) == Str(s) <==> Hard(s)
  {
    SoftenFixpoint(s);
  }

  lemma EntryTreeValue(key: cstring, a: SExp, b: SExp)
    ensures EntryTree(key, a) == EntryTree(key, b) <==> a == b
  {
    hide Chain;
    ChainOfTwo(Symbol(key), a);
    ChainOfTwo(Symbol(key), b);
  }

  lemma {:induction false} ChainElements(xs: seq<SExp>, ys: seq<SExp>)
    requires |xs| == |ys|
    ensures Chain(xs, Nil) == Chain(ys, Nil) <==> xs == ys
  {
    if xs != [] {
      ChainElements(xs[1..], ys[1..]);
      HeadTail(xs);
      HeadTail(ys);
    }
  }

  lemma SixEqual(a: SExp, b: SExp, c: SExp, a': SExp, b': SExp, c': SExp, d: SExp, e: SExp, f: SExp)
    ensures Chain([a, b, c, d, e, f], Nil) == Chain([a', b', c', d, e, f], Nil) <==> a == a' && b == b' && c == c'
  {
    var xs: seq<SExp>, ys: seq<SExp> := [a, b, c, d, e, f], [a', b', c', d, e, f];
    ChainElements(xs, ys);
    if xs == ys { assert xs[0] == ys[0] && xs[1] == ys[1] && xs[2] == ys[2]; }
  }

  /** A record is read with the table's own strings if and only if tag, snippet and file
      name hold no newline, carriage return, tab or NUL. */
  lemma RecordIsIntact(e: E.Entry)
    ensures RecordTree(e) == OwnRecord(e) <==> Intact(e)
  {
    hide EntryTree, Chain, StrTree, Hard;
    StringIsIntact(e.tag);
    StringIsIntact(e.linerep);
    StringIsIntact(F.StrOf(e.filename));
    EntryTreeValue(TAG, StrTree(e.tag), Str(e.tag));
    EntryTreeValue(SNIPPET, StrTree(e.linerep), Str(e.linerep));
    EntryTreeValue(FILENAME, StrTree(F.StrOf(e.filename)), Str(F.StrOf(e.filename)));
    SixEqual(EntryTree(TAG, StrTree(e.tag)), EntryTree(SNIPPET, StrTree(e.linerep)), EntryTree(FILENAME, StrTree(F.StrOf(e.filename))),
             EntryTree(TAG, Str(e.tag)), EntryTree(SNIPPET, Str(e.linerep)), EntryTree(FILENAME, Str(F.StrOf(e.filename))),
             EntryTree(LINENO, Int(e.lineno)), EntryTree(OFFSET, Int(e.charno)), EntryTree(DIRECTORY_DISTANCE, Int(0)));
  }

  predicate AllIntact(es: seq<E.Entry>) {
    forall k :: 0 <= k < |es| ==> Intact(es[k])
  }

  lemma RecordsAreIntact(es: seq<E.Entry>)
    ensures RecordTrees(es) == OwnRecords(es) <==> AllIntact(es)
  {
    hide RecordTree, OwnRecord, Intact;
    forall k | 0 <= k < |es|
      ensures RecordTrees(es)[k] == OwnRecords(es)[k] <==> Intact(es[k])
    {
      RecordIsIntact(es[k]);
    }
  }

  /** The same for the printed text: it denotes the record's own strings exactly then. */
  lemma RecordDenotesExactly(e: E.Entry)
    ensures DenotesAnywhere(RecordText(e), OwnRecord(e)) <==> Intact(e)
  {
    hide RecordText, RecordTree, OwnRecord, Intact, ReadSexp, Starts;
    RecordDenotes(e);
    RecordIsIntact(e);
    if DenotesAnywhere(RecordText(e), OwnRecord(e)) {
      assert ReadSexp(RecordText(e) + "") == Ok(OwnRecord(e), "");
      assert ReadSexp(RecordText(e) + "") == Ok(RecordTree(e), "");
    }
  }

  /** A snippet that begins with a tab arrives with the letter t in its place. */
  lemma TabInSnippet()
    ensures StrTree("\tx") == Str("tx")
  {
    var s: cstring := "\tx";
    assert s[1..] == "x" && s[1..][1..] == "";
    assert Soften(s[1..]) == "x";
    assert Soften(s) == "t" + "x";
  }

  lemma {:induction false} RecordsDenote(es: seq<E.Entry>)
    ensures AllDenote(RecordTexts(es), RecordTrees(es))
  {
    if es != [] {
      RecordDenotes(es[0]);
      RecordsDenote(es[1..]);
    }
  }

  /** (r1 r2 ... ) with a space behind every record. */
  function ResultsText(es: seq<E.Entry>): string {
    "(" + Trailed(RecordTexts(es)) + ")"
  }

  lemma ResultsDenote(es: seq<E.Entry>)
    ensures DenotesAnywhere(ResultsText(es), Chain(RecordTrees(es), Nil))
  {
    RecordsDenote(es);
    TrailedList(RecordTexts(es), RecordTrees(es));
  }

  // ----- Replies

  function TimesText(high: int32, low: int32): string {
    "(" + Spaced([Decimal(high), Decimal(low)]) + ")"
  }

  function ReplyText(high: int32, low: int32, number: int32, value: string): string {
    "(" + Spaced([Entry(SERVER_START_TIME, TimesText(high, low)),
                  Entry(SEQUENCE_NUMBER, Decimal(number)), Entry(VALUE, value)]) + ")"
  }

  /** ((server-start-time (high low)) (sequence-number number) (value value)) */
  function ReplyTree(high: int32, low: int32, number: int32, value: SExp): SExp {
    Chain([EntryTree(SERVER_START_TIME, Chain([Int(high), Int(low)], Nil)),
           EntryTree(SEQUENCE_NUMBER, Int(number)), EntryTree(VALUE, value)], Nil)
  }

  /** ((server-start-time (high low)) (sequence-number number) (value ...)) */
  lemma ReplyTreeExactly(high: int32, low: int32, number: int32, value: SExp)
    ensures ReplyTree(high, low, number, value)
         == Pair(Pair(Symbol("server-start-time"), Pair(Pair(Int(high), Pair(Int(low), Nil)), Nil)),
            Pair(Pair(Symbol("sequence-number"), Pair(Int(number), Nil)),
            Pair(Pair(Symbol("value"), Pair(value, Nil)), Nil)))
  {
    ChainOfTwo(Int(high), Int(low));
    EntryTreeShape(SERVER_START_TIME, Chain([Int(high), Int(low)], Nil));
    EntryTreeShape(SEQUENCE_NUMBER, Int(number));
    EntryTreeShape(VALUE, value);
    var entries := [EntryTree(SERVER_START_TIME, Chain([Int(high), Int(low)], Nil)), EntryTree(SEQUENCE_NUMBER, Int(number)),
                    EntryTree(VALUE, value)];
    hide EntryTree;
    ChainOfTwo(entries[1], entries[2]);
    assert entries[1..] == [entries[1], entries[2]];
    assert Chain(entries, Nil) == Pair(entries[0], Chain(entries[1..], Nil));
  }

  lemma ReplyDenotes(high: int32, low: int32, number: int32, value: string, e: SExp)
    requires Denotes(value, e)
    ensures DenotesAnywhere(ReplyText(high, low, number, value), ReplyTree(high, low, number, e))
  {
    hide Entry, EntryTree, Denotes, DenotesAnywhere;
    ServerStartTimeIsKey();
    SequenceNumberIsKey();
    ValueIsKey();
    TimesDenote(high, low);
    EntryDenotes(SERVER_START_TIME, TimesText(high, low), Chain([Int(high), Int(low)], Nil));
    AnywhereDenotes(Entry(SERVER_START_TIME, TimesText(high, low)), EntryTree(SERVER_START_TIME, Chain([Int(high), Int(low)], Nil)));
    IntField(SEQUENCE_NUMBER, number);
    EntryDenotes(VALUE, value, e);
    AnywhereDenotes(Entry(VALUE, value), EntryTree(VALUE, e));
    SpacedList([Entry(SERVER_START_TIME, TimesText(high, low)), Entry(SEQUENCE_NUMBER, Decimal(number)), Entry(VALUE, value)],
               [EntryTree(SERVER_START_TIME, Chain([Int(high), Int(low)], Nil)),
                EntryTree(SEQUENCE_NUMBER, Int(number)), EntryTree(VALUE, e)]);
  }

  lemma TimesDenote(high: int32, low: int32)
    ensures Denotes(TimesText(high, low), Chain([Int(high), Int(low)], Nil))
  {
    IntDenotes(high);
    IntDenotes(low);
    SpacedList([Decimal(high), Decimal(low)], [Int(high), Int(low)]);
  }

  // ----- The pieces that are appended

  /** A record as PrintTagsResults appends it. */
  function RecordPieces(e: E.Entry): string {
    "(" + "(tag \"" + CEscapeAll(CStr(e.tag))
    + "\") (snippet \"" + CEscapeAll(CStr(e.linerep))
    + "\") (filename \"" + CEscapeAll(CStr(F.StrOf(e.filename)))
    + "\") (lineno " + Decimal(e.lineno)
    + ") (offset " + Decimal(e.charno)
    + ") (directory-distance " + "0" + ")"
    + ")"
  }

  /** Closing one attribute and opening the next: with the closing that follows,
      the appended pieces are one more attribute. */
  lemma NextField(output: string, close: string, key: string, open: string, value: string, closeValue: string)
    ensures output + (close + " (" + key + " " + open) + value + (closeValue + ")")
         == output + close + " " + Entry(key, open + value + closeValue)
  {
    var opening := " (" + key + " " + open;
    assert close + " (" + key + " " + open == close + opening;
    Associative(output, close, opening);
    assert " " + Entry(key, open + value + closeValue) == opening + value + (closeValue + ")");
    Associate(output + close, opening, value, closeValue + ")");
    Associative(output + close, " ", Entry(key, open + value + closeValue));
  }

  lemma {:induction false} SpacedMore(xs: seq<string>, x: string)
    requires xs != []
    ensures Spaced(xs + [x]) == Spaced(xs) + " " + x
  {
    AppendTail(xs, [x]);
    if |xs| == 1 {
      assert xs[1..] + [x] == [x];
    } else {
      SpacedMore(xs[1..], x);
      Associate(xs[0] + " ", Spaced(xs[1..]), " ", x);
    }
  }

  /** A record's text up to its k-th attribute. */
  function FirstFields(e: E.Entry, k: nat): string
    requires k <= 6
  {
    "(" + Spaced(Fields(e)[..k])
  }

  lemma OneMoreField(e: E.Entry, k: nat)
    requires 0 < k < 6
    ensures FirstFields(e, k + 1) == FirstFields(e, k) + " " + Fields(e)[k]
  {
    TakeNext(Fields(e), k);
    SpacedMore(Fields(e)[..k], Fields(e)[k]);
    Associate("(", Spaced(Fields(e)[..k]), " ", Fields(e)[k]);
  }

  lemma FirstField(e: E.Entry)
    ensures FirstFields(e, 1) == "(" + "(tag \"" + CEscapeAll(CStr(e.tag)) + "\")"
  {
    hide CEscapeAll, CStr, Decimal, F.StrOf;
    assert Fields(e)[..1] == [Fields(e)[0]];
    assert Entry(TAG, Quoted(e.tag)) == "(tag \"" + CEscapeAll(CStr(e.tag)) + "\")";
    Associate("(", "(tag \"", CEscapeAll(CStr(e.tag)), "\")");
  }

  /** The appended pieces are the record. */
  lemma PiecesAreRecord(e: E.Entry)
    ensures RecordPieces(e) == RecordText(e)
  {
    var tag, snippet := CEscapeAll(CStr(e.tag)), CEscapeAll(CStr(e.linerep));
    var name, line, char0 := CEscapeAll(CStr(F.StrOf(e.filename))), Decimal(e.lineno), Decimal(e.charno);
    var o1 := "(" + "(tag \"" + tag;
    var o2 := o1 + "\") (snippet \"" + snippet;
    var o3 := o2 + "\") (filename \"" + name;
    var o4 := o3 + "\") (lineno " + line;
    var o5 := o4 + ") (offset " + char0;
    var o6 := o5 + ") (directory-distance " + "0";
    FirstField(e);
    SecondField(e, o1, o2);
    ThirdField(e, o2, o3);
    FourthField(e, o3, o4);
    FifthField(e, o4, o5);
    SixthField(e, o5, o6);
    TakeAll(Fields(e));
  }

  lemma SecondField(e: E.Entry, before: string, after: string)
    requires before + "\")" == FirstFields(e, 1)
    requires after == before + "\") (snippet \"" + CEscapeAll(CStr(e.linerep))
    ensures after + "\")" == FirstFields(e, 2)
  {
    hide CEscapeAll, CStr;
    assert "\") (snippet \"" == "\")" + " (" + "snippet" + " " + "\"";
    assert "\"" + ")" == "\")";
    NextField(before, "\")", SNIPPET, "\"", CEscapeAll(CStr(e.linerep)), "\"");
    OneMoreField(e, 1);
  }

  lemma ThirdField(e: E.Entry, before: string, after: string)
    requires before + "\")" == FirstFields(e, 2)
    requires after == before + "\") (filename \"" + CEscapeAll(CStr(F.StrOf(e.filename)))
    ensures after + "\")" == FirstFields(e, 3)
  {
    hide CEscapeAll, CStr, F.StrOf;
    assert "\") (filename \"" == "\")" + " (" + "filename" + " " + "\"";
    assert "\"" + ")" == "\")";
    NextField(before, "\")", FILENAME, "\"", CEscapeAll(CStr(F.StrOf(e.filename))), "\"");
    OneMoreField(e, 2);
  }

  lemma FourthField(e: E.Entry, before: string, after: string)
    requires before + "\")" == FirstFields(e, 3)
    requires after == before + "\") (lineno " + Decimal(e.lineno)
    ensures after + ")" == FirstFields(e, 4)
  {
    hide Decimal;
    assert "\") (lineno " == "\")" + " (" + "lineno" + " " + "";
    assert "" + ")" == ")" && "" + Decimal(e.lineno) + "" == Decimal(e.lineno);
    NextField(before, "\")", LINENO, "", Decimal(e.lineno), "");
    OneMoreField(e, 3);
  }

  lemma FifthField(e: E.Entry, before: string, after: string)
    requires before + ")" == FirstFields(e, 4)
    requires after == before + ") (offset " + Decimal(e.charno)
    ensures after + ")" == FirstFields(e, 5)
  {
    hide Decimal;
    assert ") (offset " == ")" + " (" + "offset" + " " + "";
    assert "" + ")" == ")" && "" + Decimal(e.charno) + "" == Decimal(e.charno);
    NextField(before, ")", OFFSET, "", Decimal(e.charno), "");
    OneMoreField(e, 4);
  }

  lemma SixthField(e: E.Entry, before: string, after: string)
    requires before + ")" == FirstFields(e, 5)
    requires after == before + ") (directory-distance " + "0"
    ensures after + ")" == FirstFields(e, 6)
  {
    hide FirstFields, Entry;
    assert ") (directory-distance " == ")" + " (" + "directory-distance" + " " + "";
    assert "" + ")" == ")" && "" + "0" + "" == "0" && Decimal(0) == "0";
    NextField(before, ")", DIRECTORY_DISTANCE, "", "0", "");
    OneMoreField(e, 5);
  }

  // ----- Requests

  /** A request as TranslateInput understands it; tag files are given by their
      declarations. */
  datatype Query =
    | Ping
    | Log
    | GetServerVersion
    | GetSupportedProtocolVersions
    | ReloadTagsFile(ds: seq<E.Declaration>)
    | LoadUpdateFile(ds: seq<E.Declaration>)
    | LookupTagsInFile(file: string)
    | LookupTagPrefix(tag: string)
    | LookupTagExact(tag: string)

  predicate StandsAt(path: string, pattern: string, k: nat) {
    k <= |path| && pattern <= path[k..]
  }

  /** What is behind the first occurrence of the pattern, if there is one. */
  function BehindFirst(path: string, pattern: string): (rest: Option<string>)
    ensures rest.Some? ==> |pattern| + |rest.value| <= |path|
    ensures rest.Some? ==> path[|path| - |rest.value| - |pattern|..] == pattern + rest.value
    ensures rest.Some? ==> forall k: nat :: k < |path| - |rest.value| - |pattern| ==> !StandsAt(path, pattern, k)
    ensures rest.None? ==> forall k: nat :: !StandsAt(path, pattern, k)
  {
    if pattern <= path then Some(path[|pattern|..])
    else if path == "" then None
    else
      StandsLater(path, pattern);
      hide StandsAt;
      BehindFirst(path[1..], pattern)
  }

  /** Where the pattern does not stand in front, it stands one place earlier in the tail. */
  lemma StandsLater(path: string, pattern: string)
    requires path != "" && !(pattern <= path)
    ensures forall k: nat :: StandsAt(path, pattern, k) <==> k > 0 && StandsAt(path[1..], pattern, k - 1)
    ensures forall k: nat :: 0 < k <= |path| ==> path[k..] == path[1..][k - 1..]
  {
    assert path[0..] == path;
  }

  /** A path without everything up to the corpus root, as far as it is in there. */
  function StripCorpusRoot(path: string, corpusRoot: string): string {
    if corpusRoot == "" then path
    else match BehindFirst(path, "/" + corpusRoot + "/")
      case None => path
      case Some(rest) => rest
  }

  /** What stands in front of the corpus root, and the root itself, are cut off at the first
      place where the root stands between two slashes, */
  lemma StripExactly(before: string, corpusRoot: string, behind: string)
    requires corpusRoot != ""
    requires forall k: nat :: k < |before| ==> !StandsAt(before + ("/" + corpusRoot + "/") + behind, "/" + corpusRoot + "/", k)
    ensures StripCorpusRoot(before + ("/" + corpusRoot + "/") + behind, corpusRoot) == behind
  {
    hide BehindFirst;
    FirstIsThere(before, "/" + corpusRoot + "/", behind);
  }

  lemma FirstIsThere(before: string, pattern: string, behind: string)
    requires forall k: nat :: k < |before| ==> !StandsAt(before + pattern + behind, pattern, k)
    ensures BehindFirst(before + pattern + behind, pattern) == Some(behind)
  {
    var path := before + pattern + behind;
    assert path[|before|..] == pattern + behind;
    assert StandsAt(path, pattern, |before|);
    var rest := BehindFirst(path, pattern);
    var k: nat := |path| - |rest.value| - |pattern|;
    assert StandsAt(path, pattern, k);
    assert k == |before|;
    assert rest.value == path[|before|..][|pattern|..];
  }

  /** and without such a place, or without a root, the path stays as it is. */
  lemma NothingStripped(path: string, corpusRoot: string)
    requires corpusRoot == "" || forall k: nat :: !StandsAt(path, "/" + corpusRoot + "/", k)
    ensures StripCorpusRoot(path, corpusRoot) == path
  {
    hide BehindFirst;
    NowhereFound(path, "/" + corpusRoot + "/");
  }

  lemma NowhereFound(path: string, pattern: string)
    ensures BehindFirst(path, pattern).Some? ==> exists k: nat :: StandsAt(path, pattern, k)
  {
    var rest := BehindFirst(path, pattern);
    assert rest.Some? ==> StandsAt(path, pattern, |path| - |rest.value| - |pattern|);
  }

  /** The flags of a server, and the limit on its results. */
  datatype Setup = Setup(fileindex: bool, findfile: bool, limit: nat, testMode: bool, corpusRoot: string)

  /** Whether the request ends the program: loads that it does not survive, and the lookup
      of a file whose path ends with the corpus root, which leaves an empty name. */
  predicate Fatal(q: Query, t: E.Table, setup: Setup) {
    match q
    case ReloadTagsFile(ds) => !T.Acceptable(ds, false, {}, setup.findfile)
    case LoadUpdateFile(ds) => !T.Acceptable(ds, false, t.files.Keys, setup.findfile)
    case LookupTagsInFile(file) => setup.fileindex && file != "" && StripCorpusRoot(file, setup.corpusRoot) == ""
    case _ => false
  }

  /** What the table is afterwards. */
  function TableAfter(q: Query, t: E.Table): E.Table {
    match q
    case ReloadTagsFile(ds) => E.Perform(t, E.Reload(ds))
    case LoadUpdateFile(ds) => E.Perform(t, E.Update(ds))
    case _ => t
  }

  function BoolTree(b: bool): SExp {
    if b then Symbol("t") else Nil
  }

  /** The records a lookup finds before the predicate is applied, if it is one. */
  function Found(q: Query, t: E.Table, setup: Setup): Option<seq<E.Entry>> {
    match q
    case LookupTagsInFile(file) =>
      if setup.fileindex && file != ""
      then Some(T.FirstResults(E.Records(t, F.Components(StripCorpusRoot(file, setup.corpusRoot))), setup.limit)) else None
    case LookupTagPrefix(tag) => Some(T.FirstResults(E.Select(t.index, E.HasPrefix(tag)), setup.limit))
    case LookupTagExact(tag) => Some(T.FirstResults(E.Select(t.index, E.HasTag(tag)), setup.limit))
    case _ => None
  }

  /** A record of a loaded file. */
  predicate InTable(t: E.Table, e: E.Entry) {
    e.filename in t.files && e in t.files[e.filename]
  }

  /** The lookup asks for such a record: with this very tag, with a tag that begins like this,
      or of this file. */
  predicate Wanted(q: Query, setup: Setup, e: E.Entry) {
    match q
    case LookupTagExact(tag) => e.tag == tag
    case LookupTagPrefix(tag) => |tag| <= |e.tag| && e.tag[..|tag|] == tag
    case LookupTagsInFile(file) => e.filename == F.Components(StripCorpusRoot(file, setup.corpusRoot))
    case _ => false
  }

  /** A lookup finds wanted records of loaded files only, no more than the limit, and all
      of them if they are fewer. */
  lemma LookupFinds(q: Query, t: E.Table, setup: Setup)
    requires E.Represents(t) && Found(q, t, setup).Some?
    ensures var es := Found(q, t, setup).value;
      && (forall e :: e in es ==> InTable(t, e) && Wanted(q, setup, e))
      && |es| <= setup.limit
      && (|es| < setup.limit ==> forall e :: InTable(t, e) && Wanted(q, setup, e) ==> e in es)
  {
    hide E.Represents, StripCorpusRoot;
    forall e {
      E.IndexHolds(t, e);
    }
    match q {
      case LookupTagExact(tag) => E.SelectHolds(t.index, E.HasTag(tag));
      case LookupTagPrefix(tag) => E.SelectHolds(t.index, E.HasPrefix(tag));
      case LookupTagsInFile(file) => E.FileHolds(t, F.Components(StripCorpusRoot(file, setup.corpusRoot)));
      case _ =>
    }
  }

  /** The value of the reply. */
  function ValueTree(q: Query, t: E.Table, setup: Setup, test: E.Entry -> bool): SExp {
    match Found(q, t, setup)
    case Some(es) => Chain(RecordTrees(Passing(es, test)), Nil)
    case None =>
      match q
      case Ping => BoolTree(!setup.testMode)
      case GetServerVersion => Int(2)
      case GetSupportedProtocolVersions => Chain([Int(1), Int(2)], Nil)
      case LookupTagsInFile(_) => Nil
      case _ => BoolTree(true)
  }

  /** What is answered without looking at the records. */
  lemma FixedReplies(t: E.Table, setup: Setup, test: E.Entry -> bool, ds: seq<E.Declaration>, file: string)
    ensures ValueTree(Ping, t, setup, test) == if setup.testMode then Nil else Symbol("t")
    ensures ValueTree(Log, t, setup, test) == Symbol("t")
    ensures ValueTree(GetServerVersion, t, setup, test) == Int(2)
    ensures ValueTree(GetSupportedProtocolVersions, t, setup, test) == Pair(Int(1), Pair(Int(2), Nil))
    ensures ValueTree(ReloadTagsFile(ds), t, setup, test) == ValueTree(LoadUpdateFile(ds), t, setup, test) == Symbol("t")
    ensures !setup.fileindex || file == "" ==> ValueTree(LookupTagsInFile(file), t, setup, test) == Nil
  {
    ChainOfTwo(Int(1), Int(2));
  }

  lemma BoolDenotes(b: bool)
    ensures Denotes(if b then "t" else "nil", BoolTree(b))
  {
    forall suffix: string | EndsToken(suffix)
      ensures ReadSexp((if b then "t" else "nil") + suffix) == Ok(BoolTree(b), suffix)
    {
      if b {
        assert !IntToken("t") && "t"[0] == 't';
        BareTokenRead("t", suffix);
      } else {
        NilRoundTrip(suffix, false);
      }
    }
  }

  lemma SpacedTwo(a: string, b: string)
    ensures Spaced([a, b]) == a + " " + b
  {
    assert [a, b][1..] == [b];
  }

  lemma SpacedThree(a: string, b: string, c: string)
    ensures Spaced([a, b, c]) == a + " " + (b + " " + c)
  {
    assert [a, b, c][1..] == [b, c];
    SpacedTwo(b, c);
  }

  lemma VersionDenotes()
    ensures Denotes("2", Int(2))
  {
    IntDenotes(2);
    assert Decimal(2) == "2";
  }

  lemma VersionsDenote()
    ensures Denotes("(1 2)", Chain([Int(1), Int(2)], Nil))
  {
    hide Denotes, DenotesAnywhere;
    TimesDenote(1, 2);
    SpacedTwo("1", "2");
    assert Decimal(1) == "1" && Decimal(2) == "2";
    assert "(" + ("1" + " " + "2") + ")" == "(1 2)";
  }

  class SexpProtocolRequestHandler {
    const fileindex: bool
    const testMode: bool
    const corpusRoot: string
    const startTime: nat
    var sequenceNumber: nat

    /** Seconds that still fit once they are split into half-words. */
    ghost predicate Valid()
      reads this
    {
      startTime < 0x8000_0000_0000 && sequenceNumber < INT_LIMIT
    }

    /** This server's setup, with a table. */
    function SetupWith(table: T.TagsTable): Setup {
      Setup(fileindex, table.findfile, table.maxResults, testMode, corpusRoot)
    }

    constructor (fileindex: bool, testMode: bool, corpusRoot: string, startTime: nat)
      requires startTime < 0x8000_0000_0000
      ensures Valid() && sequenceNumber == 0
      ensures this.fileindex == fileindex && this.testMode == testMode && this.startTime == startTime
      ensures this.corpusRoot == corpusRoot
    {
      this.fileindex, this.testMode, this.corpusRoot, this.startTime := fileindex, testMode, corpusRoot, startTime;
      sequenceNumber := 0;
    }

    method PrintTagsResults(matches: seq<T.TagsResult>, test: E.Entry -> bool) returns (output: string)
      ensures output == ResultsText(Passing(T.Values(matches), test))
    {
      hide RecordText, RecordPieces;
      output := "(";
      ghost var all := Passing(T.Values(matches), test);
      TakeAll(matches);
      var i := 0;
      while i < |matches|
        invariant 0 <= i <= |matches|
        invariant output + Trailed(RecordTexts(Passing(T.Values(matches[i..]), test))) == "(" + Trailed(RecordTexts(all))
      {
        DropNext(matches, i);
        ghost var before, rest := output, Trailed(RecordTexts(Passing(T.Values(matches[i + 1..]), test)));
        ConsTail(matches[i].value, T.Values(matches[i + 1..]));
        if test(matches[i].value) {
          PiecesAreRecord(matches[i].value);
          output := output + RecordPieces(matches[i].value) + " ";
          Associate(before, RecordText(matches[i].value), " ", rest);
        }
        i := i + 1;
      }
      Neutral(output);
      output := output + ")";
    }

    /** The value that a request is answered with; None when the program ends. */
    method Answer(q: Query, table: T.TagsTable, test: E.Entry -> bool) returns (value: Option<string>)
      requires table.Valid() && (table.enableFileindex <==> fileindex)
      modifies table
      ensures value.None? <==> Fatal(q, old(table.View()), SetupWith(table))
      ensures value.Some? ==>
                && table.Valid() && table.View() == TableAfter(q, old(table.View()))
                && Denotes(value.value, ValueTree(q, old(table.View()), SetupWith(table), test))
    {
      hide Denotes, DenotesAnywhere, RecordTrees, ResultsText, T.TagIndexAgrees, T.FileIndexAgrees, T.NameIndexAgrees, E.Represents, T.Values, T.Acceptable, BehindFirst;
      BoolDenotes(true);
      BoolDenotes(false);
      VersionDenotes();
      VersionsDenote();
      match q
      case Ping => value := Some(if testMode then "nil" else "t");
      case Log => value := Some("t");
      case GetServerVersion => value := Some("2");
      case GetSupportedProtocolVersions => value := Some("(1 2)");
      case ReloadTagsFile(ds) =>
        var ok := table.ReloadTagFile(ds);
        value := if ok then Some("t") else None;
      case LoadUpdateFile(ds) =>
        var ok := table.UpdateTagFile(ds);
        value := if ok then Some("t") else None;
      case LookupTagsInFile(file) =>
        if fileindex && file != "" {
          var matches := table.FindTagsByFile(StripCorpusRoot(file, corpusRoot));
          if matches.None? {
            return None;
          }
          var output := PrintTagsResults(matches.value, test);
          PrintedDenotes(Passing(T.Values(matches.value), test));
          value := Some(output);
        } else {
          value := Some("nil");
        }
      case LookupTagPrefix(tag) =>
        var matches := table.FindPrefixTags(tag);
        var output := PrintTagsResults(matches, test);
        PrintedDenotes(Passing(T.Values(matches), test));
        value := Some(output);
      case LookupTagExact(tag) =>
        var matches := table.FindTags(tag);
        var output := PrintTagsResults(matches, test);
        PrintedDenotes(Passing(T.Values(matches), test));
        value := Some(output);
    }

    /** The reply is read as server start time, in two half-words, number of earlier
        requests, and value. */
    method Execute(q: Query, table: T.TagsTable, test: E.Entry -> bool) returns (output: Option<string>)
      requires Valid() && table.Valid() && (table.enableFileindex <==> fileindex)
      requires sequenceNumber + 1 < INT_LIMIT
      modifies table, this
      ensures output.None? <==> Fatal(q, old(table.View()), SetupWith(table))
      ensures output.Some? ==>
                && Valid() && sequenceNumber == old(sequenceNumber) + 1
                && table.Valid() && table.View() == TableAfter(q, old(table.View()))
                && exists high, low: int32 ::
                     && high * 0x1_0000 + low == startTime && 0 <= low < 0x1_0000
                     && ReadSexp(output.value)
                        == Ok(ReplyTree(high, low, old(sequenceNumber),
                                        ValueTree(q, old(table.View()), SetupWith(table), test)), "")
    {
      hide ReplyTree, ValueTree, Denotes, DenotesAnywhere, TableAfter, T.TagIndexAgrees, T.FileIndexAgrees, T.NameIndexAgrees, E.Represents, ReplyText;
      var high := FastItoa(startTime / 0x1_0000);
      var low := FastItoa(startTime % 0x1_0000);
      var number := FastItoa(sequenceNumber);
      ghost var n := sequenceNumber;
      var text := "((server-start-time (" + high + " " + low + ")) (sequence-number " + number + ") (value ";
      sequenceNumber := sequenceNumber + 1;
      var value := Answer(q, table, test);
      if value.None? {
        return None;
      }
      output := Some(text + value.value + "))");
      ReplyPieces(startTime / 0x1_0000, startTime % 0x1_0000, n, value.value);
      ReplyReads(startTime / 0x1_0000, startTime % 0x1_0000, n, value.value,
                 ValueTree(q, old(table.View()), SetupWith(table), test));
    }
  }

  lemma PrintedDenotes(es: seq<E.Entry>)
    ensures Denotes(ResultsText(es), Chain(RecordTrees(es), Nil))
  {
    ResultsDenote(es);
  }

  /** Closing one piece of the reply and opening the next. */
  lemma Glue(output: string, close: string, open: string, value: string, closeValue: string)
    ensures output + (close + " " + open) + value + closeValue == output + close + " " + (open + value + closeValue)
  {
    assert close + " " + open == close + (" " + open);
    Associative(output, close, " " + open);
    Associative(output + close, " ", open);
    Associate(output + close + " ", open, value, closeValue);
  }

  /** The pieces that Execute appends are the reply. */
  lemma ReplyPieces(high: int32, low: int32, number: int32, value: string)
    ensures "((server-start-time (" + Decimal(high) + " " + Decimal(low) + ")) (sequence-number " + Decimal(number) + ") (value "
            + value + "))" == ReplyText(high, low, number, value)
  {
    hide Decimal, Spaced;
    var h, l, n := Decimal(high), Decimal(low), Decimal(number);
    var x1 := "((server-start-time (" + h + " " + l;
    var x2 := x1 + ")) (sequence-number " + n;
    var x3 := x2 + ") (value " + value;
    var first, second, third := Entry(SERVER_START_TIME, TimesText(high, low)), Entry(SEQUENCE_NUMBER, n), Entry(VALUE, value);
    StartTimeText(h, l);
    SpacedTwo(h, l);
    assert ")) (sequence-number " == "))" + " " + "(sequence-number ";
    assert "(sequence-number " + n + ")" == second;
    Glue(x1, "))", "(sequence-number ", n, ")");
    assert ") (value " == ")" + " " + "(value ";
    assert "(value " + value + ")" == third;
    Glue(x2, ")", "(value ", value, ")");
    SpacedThree(first, second, third);
    Associate("(", first, " ", second + " " + third);
    Associative("(" + first + " ", second + " ", third);
    Associative("(" + first + " ", second, " ");
    assert "))" == ")" + ")";
    Associative(x3, ")", ")");
  }

  lemma StartTimeText(h: string, l: string)
    ensures "((server-start-time (" + h + " " + l + "))" == "(" + Entry(SERVER_START_TIME, "(" + (h + " " + l) + ")")
  {
    var body := h + " " + l;
    assert "((server-start-time (" + h + " " + l == "((server-start-time (" + body;
    assert "((server-start-time (" + body + "))" == "(" + ("(" + "server-start-time" + " " + ("(" + body + ")") + ")");
  }

  lemma ReplyReads(high: int32, low: int32, number: int32, value: string, e: SExp)
    requires Denotes(value, e)
    ensures ReadSexp(ReplyText(high, low, number, value)) == Ok(ReplyTree(high, low, number, e), "")
  {
    ReplyDenotes(high, low, number, value, e);
    Neutral(ReplyText(high, low, number, value));
  }
}
