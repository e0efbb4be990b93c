/** What the Python client reads of the mixer's reply to a lookup. */
module PythonEndToEnd {
  import opened CStrings
  import opened Sequences
  import opened Numerals
  import opened SExpressions
  import opened Framing
  import opened TagsReplies
  import opened Mixing
  import opened PythonRoundTrip
  import opened RoundTrip
  import opened EndToEnd
  import opened ErrorReplies
  import E = TagEntries
  import F = Filenames
  import P = PythonClient
  import M = MixerProtocol
  import Runs = MixerRuns

  function ClientValues(es: seq<SExp>): (r: seq<P.PyValue>)
    ensures |r| == |es| && forall k :: 0 <= k < |es| ==> r[k] == ClientValue(es[k])
  {
    if es == [] then [] else [ClientValue(es[0])] + ClientValues(es[1..])
  }

  // ----- The client knows the symbols of a record

  lemma KeyKnown(key: cstring, e: SExp)
    requires Key(key) && !IsDigit(key[0]) && ClientSymbols(e)
    ensures ClientSymbols(EntryTree(key, e))
  {
    ChainOfTwo(Symbol(key), e);
  }

  lemma {:induction false} ChainKnown(es: seq<SExp>)
    requires forall k :: 0 <= k < |es| ==> ClientSymbols(es[k])
    ensures ClientSymbols(Chain(es, Nil))
  {
    if es != [] { ChainKnown(es[1..]); }
  }

  lemma SixKnown(es: seq<SExp>)
    requires |es| == 6
    requires ClientSymbols(es[0]) && ClientSymbols(es[1]) && ClientSymbols(es[2])
    requires ClientSymbols(es[3]) && ClientSymbols(es[4]) && ClientSymbols(es[5])
    ensures ClientSymbols(Chain(es, Nil)) && Chain(es, Nil).Pair?
  {
    hide ClientSymbols;
    ChainKnown(es);
  }

  lemma RecordKnown(e: E.Entry)
    ensures ClientSymbols(RecordTree(e)) && RecordTree(e).Pair?
  {
    hide EntryTree, Key;
    TagIsKey();
    SnippetIsKey();
    FilenameIsKey();
    LinenoIsKey();
    OffsetIsKey();
    DirectoryDistanceIsKey();
    KeyKnown(TAG, StrTree(e.tag));
    KeyKnown(SNIPPET, StrTree(e.linerep));
    KeyKnown(FILENAME, StrTree(F.StrOf(e.filename)));
    KeyKnown(LINENO, Int(e.lineno));
    KeyKnown(OFFSET, Int(e.charno));
    KeyKnown(DIRECTORY_DISTANCE, Int(0));
    hide ClientSymbols, Chain;
    SixKnown(FieldTrees(e));
  }

  // ----- Elements without anything between them

  predicate Known(es: seq<SExp>) {
    forall k :: 0 <= k < |es| ==> es[k].Pair? && ClientSymbols(es[k])
  }

  lemma Element(text: string, v: P.PyValue, rest: string, elements: seq<P.PyValue>)
    requires text != "" && text[0] != ' ' && text[0] != ')' && text[0] != '.'
    requires P.Read(text + rest) == P.Parsed(v, rest)
    ensures P.ReadElements(text + rest, elements) == P.ReadElements(rest, elements + [v])
  {
    hide P.Read;
    AppendTail(text, rest);
  }

  lemma JoinedStarts(es: seq<SExp>, rest: string)
    requires Known(es)
    ensures EndsClientToken(All(Reprs(es)) + (")" + rest))
  {
    if es == [] {
      Neutral(")" + rest);
    } else {
      AppendTail(Repr(es[0]), All(Reprs(es)[1..]));
      AppendTail(All(Reprs(es)), ")" + rest);
    }
  }

  lemma {:induction false} JoinedReads(es: seq<SExp>, rest: string, elements: seq<P.PyValue>)
    requires Known(es)
    ensures P.ReadElements(All(Reprs(es)) + (")" + rest), elements) == P.Parsed(P.PyList(elements + ClientValues(es)), rest)
    decreases |es|
  {
    hide P.Read, P.ReadElements, Repr, ClientValue, ClientSymbols;
    if es == [] {
      Neutral(")" + rest);
      Neutral(elements);
      ListCloses(rest, elements);
    } else {
      var close := ")" + rest;
      ConsTail(Repr(es[0]), Reprs(es[1..]));
      Associative(Repr(es[0]), All(Reprs(es[1..])), close);
      JoinedStarts(es[1..], rest);
      PrintThenClientReads(es[0], All(Reprs(es[1..])) + close);
      OneElement(es[0], All(Reprs(es[1..])) + close, elements);
      JoinedReads(es[1..], rest, elements + [ClientValue(es[0])]);
      Associative(elements, [ClientValue(es[0])], ClientValues(es[1..]));
    }
  }

  /** The client's value of ((value (elements...))). */
  function ValueReplyOf(values: seq<P.PyValue>): P.PyValue {
    P.PyList([P.PyList([P.PySymbol("value"), P.PyList(values)])])
  }

  lemma TextOfReply(joined: string)
    ensures "((value " + joined + "))" == "(" + ("(" + ("value" + (" " + (joined + "))"))))
    ensures "))" == ")" + ")" && ")" == ")" + ""
  {
  }

  lemma Opens(inside: string)
    ensures P.Read("(" + inside) == P.ReadElements(inside, [])
  {
    hide P.ReadElements;
    OneFirst('(', inside);
  }

  lemma ReplyIsRead(es: seq<SExp>)
    requires Known(es)
    ensures P.Read("((value " + JoinedText(es) + "))") == P.Parsed(ValueReplyOf(ClientValues(es)), "")
  {
    hide P.Read, P.ReadElements, Known, Reprs, All, ClientValues;
    var all, joined, key, list := All(Reprs(es)), JoinedText(es), P.PySymbol("value"), P.PyList(ClientValues(es));
    TextOfReply(joined);
    // the value list
    JoinedReads(es, "))", []);
    Neutral(ClientValues(es));
    ListReads(all, "))");
    Element(joined, list, "))", [key]);
    ListCloses(")", [key] + [list]);
    // the entry
    BlankSkipped(joined + "))", [key]);
    ValueKeyReads(joined);
    Neutral([key]);
    Element("value", key, " " + (joined + "))"), []);
    Opens("value" + (" " + (joined + "))")));
    // the reply
    assert [key] + [list] == [key, list];
    EntryThenClose(joined, P.PyList([key] + [list]));
  }

  lemma ValueKeyReads(joined: string)
    ensures P.Read("value" + (" " + (joined + "))"))) == P.Parsed(P.PySymbol("value"), " " + (joined + "))"))
  {
    SymbolReads("value", " " + (joined + "))"));
  }

  lemma EntryThenClose(joined: string, entry: P.PyValue)
    requires P.Read("(" + ("value" + (" " + (joined + "))")))) == P.Parsed(entry, ")")
    ensures P.Read("(" + ("(" + ("value" + (" " + (joined + "))"))))) == P.Parsed(P.PyList([entry]), "")
  {
    hide P.Read, P.ReadElements;
    var text := "(" + ("value" + (" " + (joined + "))")));
    Opens(text);
    EntryElement(text, entry);
    Neutral(")");
    ListCloses("", [entry]);
  }

  lemma EntryElement(text: string, entry: P.PyValue)
    requires text != "" && text[0] == '(' && P.Read(text) == P.Parsed(entry, ")")
    ensures P.ReadElements(text, []) == P.ReadElements(")", [entry])
  {
    hide P.Read;
    Neutral([entry]);
  }

  // ----- Which records reach the client as they are in the table

  function Field(key: string, v: P.PyValue): P.PyValue {
    P.PyList([P.PySymbol(key), v])
  }

  /** The record as the client would have it with the table's own strings and numbers. */
  function OwnClientRecord(e: E.Entry): P.PyValue {
    P.PyList([Field(TAG, P.PyString(e.tag)), Field(SNIPPET, P.PyString(e.linerep)), Field(FILENAME, P.PyString(F.StrOf(e.filename))),
              Field(LINENO, P.PyInt(e.lineno)), Field(OFFSET, P.PyInt(e.charno)), Field(DIRECTORY_DISTANCE, P.PyInt(0))])
  }

  function OwnClientRecords(es: seq<E.Entry>): (r: seq<P.PyValue>)
    ensures |r| == |es|
    ensures forall k :: 0 <= k < |r| ==> r[k] == OwnClientRecord(es[k])
  {
    if es == [] then [] else [OwnClientRecord(es[0])] + OwnClientRecords(es[1..])
  }

  predicate NoQuote(s: string) {
    forall k :: 0 <= k < |s| ==> s[k] != '\''
  }

  /** What a record must be to reach the client whole. */
  predicate ClientIntact(e: E.Entry) {
    && Intact(e) && NoQuote(e.tag) && NoQuote(e.linerep) && NoQuote(F.StrOf(e.filename))
    && e.lineno >= 0 && e.charno >= 0
  }

  lemma ClientString(s: string)
    ensures ClientValue(StrTree(s)) == P.PyString(s) <==> Hard(s) && NoQuote(s)
  {
    var soft := Soften(CStr(s));
    HardIsWhole(soft);
    KeptLength(soft);
    KeptLength(s);
    KeptWhole(soft);
    SoftenFixpoint(s);
    if Kept(soft) == s { assert |soft| == |s|; }
  }

  /** Softened text is a C string already. */
  lemma HardIsWhole(s: cstring)
    ensures CStr(s) == s
  {
  }

  lemma ClientInt(n: int32)
    ensures ClientValue(Int(n)) == P.PyInt(n) <==> n >= 0
  {
  }

  lemma ClientField(key: cstring, e: SExp)
    ensures ClientValue(EntryTree(key, e)) == Field(key, ClientValue(e))
  {
    ChainOfTwo(Symbol(key), e);
    assert ClientItems(Pair(e, Nil)) == [ClientValue(e)];
    var tail := Pair(e, Nil);
    assert ClientItems(tail) == [ClientValue(e)];
    assert ClientItems(Pair(Symbol(key), tail)) == [P.PySymbol(key), ClientValue(e)];
  }

  lemma FieldValue(key: string, a: P.PyValue, b: P.PyValue)
    ensures Field(key, a) == Field(key, b) <==> a == b
  {
    if Field(key, a) == Field(key, b) { assert [P.PySymbol(key), a][1] == [P.PySymbol(key), b][1]; }
  }

  lemma {:induction false} ClientChain(es: seq<SExp>)
    requires es != []
    ensures ClientValue(Chain(es, Nil)) == P.PyList(ClientValues(es))
  {
    if |es| > 1 {
      ClientChain(es[1..]);
    } else {
      assert es[1..] == [];
    }
  }

  lemma SixValues(a: SExp, b: SExp, c: SExp, d: SExp, e: SExp, f: SExp)
    ensures ClientValue(Chain([a, b, c, d, e, f], Nil))
         == P.PyList([ClientValue(a), ClientValue(b), ClientValue(c), ClientValue(d), ClientValue(e), ClientValue(f)])
  {
    hide ClientValue;
    var es: seq<SExp> := [a, b, c, d, e, f];
    ClientChain(es);
    assert ClientValues(es) == [ClientValue(a), ClientValue(b), ClientValue(c), ClientValue(d), ClientValue(e), ClientValue(f)];
  }

  /** The record the client gets, field by field. */
  lemma ClientRecord(e: E.Entry)
    ensures ClientValue(RecordTree(e))
         == P.PyList([Field(TAG, ClientValue(StrTree(e.tag))), Field(SNIPPET, ClientValue(StrTree(e.linerep))),
                      Field(FILENAME, ClientValue(StrTree(F.StrOf(e.filename)))), Field(LINENO, ClientValue(Int(e.lineno))),
                      Field(OFFSET, ClientValue(Int(e.charno))), Field(DIRECTORY_DISTANCE, ClientValue(Int(0)))])
  {
    hide ClientValue, EntryTree, StrTree, Chain, Field;
    ClientField(TAG, StrTree(e.tag));
    ClientField(SNIPPET, StrTree(e.linerep));
    ClientField(FILENAME, StrTree(F.StrOf(e.filename)));
    ClientField(LINENO, Int(e.lineno));
    ClientField(OFFSET, Int(e.charno));
    ClientField(DIRECTORY_DISTANCE, Int(0));
    SixValues(EntryTree(TAG, StrTree(e.tag)), EntryTree(SNIPPET, StrTree(e.linerep)), EntryTree(FILENAME, StrTree(F.StrOf(e.filename))),
              EntryTree(LINENO, Int(e.lineno)), EntryTree(OFFSET, Int(e.charno)), EntryTree(DIRECTORY_DISTANCE, Int(0)));
  }

  lemma FiveFields(a: P.PyValue, b: P.PyValue, c: P.PyValue, d: P.PyValue, e: P.PyValue, f: P.PyValue,
                   a': P.PyValue, b': P.PyValue, c': P.PyValue, d': P.PyValue, e': P.PyValue)
    ensures P.PyList([a, b, c, d, e, f]) == P.PyList([a', b', c', d', e', f])
       <==> a == a' && b == b' && c == c' && d == d' && e == e'
  {
    var xs, ys := [a, b, c, d, e, f], [a', b', c', d', e', f];
    if xs == ys { assert xs[0] == ys[0] && xs[1] == ys[1] && xs[2] == ys[2] && xs[3] == ys[3] && xs[4] == ys[4]; }
  }

  /** The client gets a record with the table's own strings and numbers if and only if tag,
      snippet and file name hold no newline, carriage return, tab, NUL or single quote, and
      line number and offset are not negative. */
  lemma RecordReachesClient(e: E.Entry)
    ensures ClientValue(RecordTree(e)) == OwnClientRecord(e) <==> ClientIntact(e)
  {
    hide ClientValue, StrTree, Field, Hard, NoQuote;
    ClientRecord(e);
    ClientInt(0);
    ClientString(e.tag);
    ClientString(e.linerep);
    ClientString(F.StrOf(e.filename));
    ClientInt(e.lineno);
    ClientInt(e.charno);
    FieldValue(TAG, ClientValue(StrTree(e.tag)), P.PyString(e.tag));
    FieldValue(SNIPPET, ClientValue(StrTree(e.linerep)), P.PyString(e.linerep));
    FieldValue(FILENAME, ClientValue(StrTree(F.StrOf(e.filename))), P.PyString(F.StrOf(e.filename)));
    FieldValue(LINENO, ClientValue(Int(e.lineno)), P.PyInt(e.lineno));
    FieldValue(OFFSET, ClientValue(Int(e.charno)), P.PyInt(e.charno));
    FiveFields(Field(TAG, ClientValue(StrTree(e.tag))), Field(SNIPPET, ClientValue(StrTree(e.linerep))),
               Field(FILENAME, ClientValue(StrTree(F.StrOf(e.filename)))), Field(LINENO, ClientValue(Int(e.lineno))),
               Field(OFFSET, ClientValue(Int(e.charno))), Field(DIRECTORY_DISTANCE, P.PyInt(0)),
               Field(TAG, P.PyString(e.tag)), Field(SNIPPET, P.PyString(e.linerep)), Field(FILENAME, P.PyString(F.StrOf(e.filename))),
               Field(LINENO, P.PyInt(e.lineno)), Field(OFFSET, P.PyInt(e.charno)));
  }

  predicate AllClientIntact(es: seq<E.Entry>) {
    forall k :: 0 <= k < |es| ==> ClientIntact(es[k])
  }

  lemma RecordsReachClient(es: seq<E.Entry>)
    ensures ValueReplyOf(ClientValues(RecordTrees(es))) == ValueReplyOf(OwnClientRecords(es)) <==> AllClientIntact(es)
  {
    hide ClientValue, RecordTree, OwnClientRecord, ClientIntact;
    var xs, ys := ClientValues(RecordTrees(es)), OwnClientRecords(es);
    forall k | 0 <= k < |es|
      ensures xs[k] == ys[k] <==> ClientIntact(es[k])
    {
      RecordReachesClient(es[k]);
    }
    ReplyValues(xs, ys);
  }

  lemma ReplyValues(xs: seq<P.PyValue>, ys: seq<P.PyValue>)
    ensures ValueReplyOf(xs) == ValueReplyOf(ys) <==> xs == ys
  {
    if ValueReplyOf(xs) == ValueReplyOf(ys) {
      assert ValueReplyOf(xs).elements[0] == ValueReplyOf(ys).elements[0];
      assert ValueReplyOf(xs).elements[0].elements[1] == ValueReplyOf(ys).elements[0].elements[1];
    }
  }

  /** One more character in front of a text that the client reads. */
  lemma KeptNext(c: char, s: string)
    ensures Kept([c] + s) == (if Dropped(c) then "" else [c]) + Kept(s)
  {
    OneFirst(c, s);
  }

  /** A single quote in a snippet is lost on the way. */
  lemma QuoteInSnippet()
    ensures ClientValue(StrTree("it's")) == P.PyString("its")
  {
    hide Kept, CStr;
    KeptLength("");
    KeptNext('s', "");
    KeptNext('\'', "s");
    KeptNext('t', "'s");
    KeptNext('i', "t's");
    assert "it's" == "i" + "t's" && "t's" == "t" + "'s" && "'s" == "'" + "s";
    StringIsIntact("it's");
  }

  // ----- The whole way to the client

  lemma {:induction false} RecordsKnown(es: seq<E.Entry>)
    ensures Known(RecordTrees(es))
  {
    hide RecordTree, ClientSymbols;
    forall k | 0 <= k < |es|
      ensures RecordTrees(es)[k].Pair? && ClientSymbols(RecordTrees(es)[k])
    {
      RecordKnown(es[k]);
    }
  }

  /** ((error ((message "...")))), as the client has it. */
  function ErrorValue(message: string): P.PyValue {
    P.PyList([Field(ERROR, P.PyList([Field(MESSAGE, P.PyString(message))]))])
  }

  /** A message that the printer leaves alone reaches the client. */
  lemma FailureReachesClient(message: cstring)
    requires Unescaped(message)
    ensures P.Read(ErrorText(message)) == P.Parsed(ErrorValue(message), "")
  {
    hide P.Read, ErrorText, Repr;
    UnescapedReply(message);
    ErrorKnown(message);
    PrintThenClientReads(ErrorTree(message), "");
    Neutral(Repr(ErrorTree(message)));
    UnescapedValue(message);
  }

  lemma ErrorKnown(message: cstring)
    ensures ClientSymbols(ErrorTree(message))
  {
    ErrorKeys();
    KeyKnown(MESSAGE, Str(message));
    KeyKnown(ERROR, Pair(EntryTree(MESSAGE, Str(message)), Nil));
  }

  lemma UnescapedValue(message: cstring)
    requires Unescaped(message)
    ensures ClientValue(ErrorTree(message)) == ErrorValue(message)
  {
    hide EntryTree;
    KeptLength(message);
    CleanWhole(message);
    ClientField(MESSAGE, Str(message));
    ClientField(ERROR, Pair(EntryTree(MESSAGE, Str(message)), Nil));
    OneItem(EntryTree(MESSAGE, Str(message)));
    OneItem(EntryTree(ERROR, Pair(EntryTree(MESSAGE, Str(message)), Nil)));
  }

  lemma OneItem(e: SExp)
    ensures ClientValue(Pair(e, Nil)) == P.PyList([ClientValue(e)])
  {
  }

  /** However the services race, whichever of them fail, with or without a local source: the
      Python client reads from the one reply the records of the sources that have answered,
      the local ones first, none missing, doubled or fused; it has them as they are in the
      tables if and only if each of them is of the kind that it gets whole. If no source has
      answered it reads the failure. */
  lemma EveryRaceReachesClient(local: Option<map<nat, Service>>, remote: map<nat, Service>, schedule: M.Schedule, s: M.State,
                               here: seq<E.Entry>, there: seq<E.Entry>)
    requires Staffed(local, remote)
    requires M.Run(M.Init(LocalReplies(local, here), RepliesOf(remote, there)), schedule) == Some(s) && Runs.Ended(s)
    ensures s.mixer.callbackRuns == 1 && s.mixer.reply.Some?
    ensures var all := AllBrought(local, remote, here, there);
      LocalAnswers(local) || SomeAnswer(remote) ==>
        && P.Read(s.mixer.reply.value) == P.Parsed(ValueReplyOf(ClientValues(RecordTrees(all))), "")
        && (P.Read(s.mixer.reply.value) == P.Parsed(ValueReplyOf(OwnClientRecords(all)), "") <==> AllClientIntact(all))
    ensures !LocalAnswers(local) && !SomeAnswer(remote) ==>
      P.Read(s.mixer.reply.value) == P.Parsed(ErrorValue(M.CONNECT_FAILURE), "")
  {
    hide RepliesOf, LocalReplies, Staffed, SomeAnswer, LocalAnswers, RecordTrees, M.Run, M.Init, Runs.Ended, P.Read;
    hide ValueReplyOf, FromReply, JoinedText, ClientValues, OwnClientRecords, AllClientIntact, ErrorText, ErrorValue, Brings, Brought, AllIntact;
    var l, r, failure := RaceEnds(local, remote, schedule, s, here, there);
    EveryRaceAnswers(local, remote, schedule, s, here, there);
    if LocalAnswers(local) || SomeAnswer(remote) {
      var all := AllBrought(local, remote, here, there);
      BringsElements(l, LocalAnswers(local), here);
      BringsElements(r, SomeAnswer(remote), there);
      RecordTreesAppend(Brought(LocalAnswers(local), here), Brought(SomeAnswer(remote), there));
      RecordsKnown(all);
      RecordsReachClient(all);
      ReplyIsRead(RecordTrees(all));
    } else {
      FailureIsPlain();
      FailureReachesClient(M.CONNECT_FAILURE);
    }
  }
}
