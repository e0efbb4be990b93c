/** Two tag servers behind the mixer: what the client reads is the local server's
    records followed by the remote one's. */
module EndToEnd {
  import opened CStrings
  import opened Sequences
  import opened Numerals
  import opened SExpressions
  import opened RoundTrip
  import opened Framing
  import opened TagsReplies
  import opened Mixing
  import opened Joining
  import opened ErrorReplies
  import P = MixerProtocol
  import Runs = MixerRuns
  import E = TagEntries
  import F = Filenames

  /** The text a server sends for a lookup. */
  function LookupReply(high: int32, low: int32, number: int32, es: seq<E.Entry>): string {
    ReplyText(high, low, number, ResultsText(es))
  }

  // ----- The reply is a C string

  lemma CleanQuoted(s: string)
    ensures Clean(Quoted(s))
  {
    hide CEscapeAll, Clean;
    CleanEscape(CStr(s));
    CleanQuote();
    CleanConcat("\"", CEscapeAll(CStr(s)));
    CleanConcat("\"" + CEscapeAll(CStr(s)), "\"");
  }

  lemma CleanQuote()
    ensures Clean("\"")
  {
  }

  lemma CleanRecord(e: E.Entry)
    ensures Clean(RecordText(e))
  {
    hide Clean, Quoted, Entry, Decimal;
    CleanQuoted(e.tag);
    CleanQuoted(e.linerep);
    CleanQuoted(F.StrOf(e.filename));
    CleanDecimal(e.lineno);
    CleanDecimal(e.charno);
    CleanDecimal(0);
    CleanEntry(TAG, Quoted(e.tag));
    CleanEntry(SNIPPET, Quoted(e.linerep));
    CleanEntry(FILENAME, Quoted(F.StrOf(e.filename)));
    CleanEntry(LINENO, Decimal(e.lineno));
    CleanEntry(OFFSET, Decimal(e.charno));
    CleanEntry(DIRECTORY_DISTANCE, Decimal(0));
    CleanSpaced(Fields(e));
    CleanParens(Spaced(Fields(e)));
  }

  lemma {:induction false} CleanRecords(es: seq<E.Entry>)
    ensures forall k :: 0 <= k < |es| ==> Clean(RecordTexts(es)[k])
  {
    if es != [] {
      CleanRecord(es[0]);
      CleanRecords(es[1..]);
    }
  }

  lemma CleanReply(high: int32, low: int32, number: int32, es: seq<E.Entry>)
    ensures Clean(LookupReply(high, low, number, es))
  {
    hide Clean, Entry, Decimal, Spaced, Trailed;
    CleanRecords(es);
    CleanTrailed(RecordTexts(es));
    CleanParens(Trailed(RecordTexts(es)));
    CleanDecimal(high);
    CleanDecimal(low);
    CleanDecimal(number);
    CleanSpaced([Decimal(high), Decimal(low)]);
    CleanParens(Spaced([Decimal(high), Decimal(low)]));
    CleanEntry(SERVER_START_TIME, TimesText(high, low));
    CleanEntry(SEQUENCE_NUMBER, Decimal(number));
    CleanEntry(VALUE, ResultsText(es));
    var fields := [Entry(SERVER_START_TIME, TimesText(high, low)), Entry(SEQUENCE_NUMBER, Decimal(number)),
                   Entry(VALUE, ResultsText(es))];
    CleanSpaced(fields);
    CleanParens(Spaced(fields));
  }

  // ----- The records survive being printed once more

  lemma {:induction false} SoftenedIsHard(s: cstring)
    ensures forall k :: 0 <= k < |Soften(s)| ==> !Soft(Soften(s)[k])
  {
    if s != "" { SoftenedIsHard(s[1..]); }
  }

  lemma StrTreeFaithful(s: string)
    ensures Faithful(StrTree(s), true)
  {
    SoftenedIsHard(CStr(s));
  }

  lemma KeyFaithful(key: cstring)
    requires Key(key)
    ensures Faithful(Symbol(key), true)
  {
    BareSymbolIsPlain(key);
  }

  lemma EntryTreeFaithful(key: cstring, e: SExp)
    requires Key(key) && Faithful(e, true)
    ensures Faithful(EntryTree(key, e), true)
  {
    KeyFaithful(key);
    FaithfulChain([Symbol(key), e]);
  }

  lemma {:induction false} FaithfulChain(es: seq<SExp>)
    requires forall k :: 0 <= k < |es| ==> Faithful(es[k], true)
    ensures Faithful(Chain(es, Nil), true)
  {
    if es != [] { FaithfulChain(es[1..]); }
  }

  lemma SixFaithful(a: SExp, b: SExp, c: SExp, d: SExp, e: SExp, f: SExp)
    requires Faithful(a, true) && Faithful(b, true) && Faithful(c, true)
    requires Faithful(d, true) && Faithful(e, true) && Faithful(f, true)
    ensures Faithful(Chain([a, b, c, d, e, f], Nil), true) && SelfDelimiting(Chain([a, b, c, d, e, f], Nil))
  {
    hide Faithful;
    FaithfulChain([a, b, c, d, e, f]);
  }

  lemma RecordTreeFaithful(e: E.Entry)
    ensures SelfDelimiting(RecordTree(e)) && Faithful(RecordTree(e), true)
  {
    hide EntryTree, StrTree, Faithful, Key, SelfDelimiting, Chain;
    TagIsKey();
    SnippetIsKey();
    FilenameIsKey();
    LinenoIsKey();
    OffsetIsKey();
    DirectoryDistanceIsKey();
    IntFaithful(e.lineno);
    IntFaithful(e.charno);
    IntFaithful(0);
    StrTreeFaithful(e.tag);
    StrTreeFaithful(e.linerep);
    StrTreeFaithful(F.StrOf(e.filename));
    EntryTreeFaithful(TAG, StrTree(e.tag));
    EntryTreeFaithful(SNIPPET, StrTree(e.linerep));
    EntryTreeFaithful(FILENAME, StrTree(F.StrOf(e.filename)));
    EntryTreeFaithful(LINENO, Int(e.lineno));
    EntryTreeFaithful(OFFSET, Int(e.charno));
    EntryTreeFaithful(DIRECTORY_DISTANCE, Int(0));
    SixFaithful(EntryTree(TAG, StrTree(e.tag)), EntryTree(SNIPPET, StrTree(e.linerep)), EntryTree(FILENAME, StrTree(F.StrOf(e.filename))),
                EntryTree(LINENO, Int(e.lineno)), EntryTree(OFFSET, Int(e.charno)), EntryTree(DIRECTORY_DISTANCE, Int(0)));
  }

  lemma IntFaithful(i: int32)
    ensures Faithful(Int(i), true)
  {
  }

  // ----- From server to mixer to client

  /** What a server's lookup reply contributes is its records. */
  lemma LookupContributes(high: int32, low: int32, number: int32, es: seq<E.Entry>)
    ensures FromReply(LookupReply(high, low, number, es)) == Mixing.Values(RecordTrees(es))
  {
    hide ReplyText, ReplyTree, ResultsText, CStr, ReadSexp, AssocGet;
    CleanReply(high, low, number, es);
    CleanWhole(LookupReply(high, low, number, es));
    PrintedDenotes(es);
    ReplyReads(high, low, number, ResultsText(es), Chain(RecordTrees(es), Nil));
    ReplyValue(high, low, number, Chain(RecordTrees(es), Nil));
    ChainIsList(RecordTrees(es));
  }

  lemma ReplyValue(high: int32, low: int32, number: int32, value: SExp)
    ensures AssocGet(ReplyTree(high, low, number, value), "value") == Found(value)
  {
    var first := EntryTree(SERVER_START_TIME, Chain([Int(high), Int(low)], Nil));
    var second := EntryTree(SEQUENCE_NUMBER, Int(number));
    var third := EntryTree(VALUE, value);
    ChainIsList([first, second, third]);
    EntryTreeShape(SERVER_START_TIME, Chain([Int(high), Int(low)], Nil));
    EntryTreeShape(SEQUENCE_NUMBER, Int(number));
    EntryTreeShape(VALUE, value);
    assert SERVER_START_TIME[0] != VALUE[0] && SEQUENCE_NUMBER[0] != VALUE[0];
    LookThrough(first, second, third, value);
  }

  lemma LookThrough(first: SExp, second: SExp, third: SExp, value: SExp)
    requires first.Pair? && first.IsList() && first.car.Symbol? && first.car.name != VALUE
    requires second.Pair? && second.IsList() && second.car.Symbol? && second.car.name != VALUE
    requires third == Pair(Symbol(VALUE), Pair(value, Nil))
    ensures AssocIn([first, second, third], VALUE) == Found(value)
  {
    var all: seq<SExp> := [first, second, third];
    assert all[1..] == [second, third] && all[1..][1..] == [third];
    assert third.cdr.IsList();
    assert AssocIn(all[1..][1..], VALUE) == Found(value);
    assert AssocIn(all[1..], VALUE) == Found(value);
  }

  lemma RecordTreesAppend(es: seq<E.Entry>, fs: seq<E.Entry>)
    ensures RecordTrees(es + fs) == RecordTrees(es) + RecordTrees(fs)
  {
    hide RecordTrees, RecordTree;
    assert |RecordTrees(es + fs)| == |RecordTrees(es) + RecordTrees(fs)|;
  }

  lemma ValueReplyElements(xs: seq<SExp>, ys: seq<SExp>)
    requires |xs| == |ys|
    ensures ValueReply(xs) == ValueReply(ys) <==> xs == ys
  {
    ChainElements(xs, ys);
    ValueReplyShape(Chain(xs, Nil));
    ValueReplyShape(Chain(ys, Nil));
  }

  /** Read as the records' own strings, or not. */
  lemma RecordsArrive(es: seq<E.Entry>)
    ensures ValueReply(RecordTrees(es)) == ValueReply(OwnRecords(es)) <==> AllIntact(es)
  {
    hide ValueReply, RecordTrees, OwnRecords, AllIntact;
    ValueReplyElements(RecordTrees(es), OwnRecords(es));
    RecordsAreIntact(es);
  }

  /** What a source stands for in the mix: its records, or nothing if none of its services
      has answered or it does not exist. */
  predicate Brings(text: string, answered: bool, es: seq<E.Entry>) {
    if answered then FromReply(text) == Mixing.Values(RecordTrees(es)) else text == "" || text == "()"
  }

  function Brought(answered: bool, es: seq<E.Entry>): seq<E.Entry> {
    if answered then es else []
  }

  lemma BringsElements(text: string, answered: bool, es: seq<E.Entry>)
    requires Brings(text, answered, es)
    ensures FromReply(text) == if answered then Mixing.Values(RecordTrees(es)) else Nothing
    ensures Elements(FromReply(text)) == RecordTrees(Brought(answered, es))
  {
    hide FromReply;
    NothingFrom();
  }

  /** The mixed reply holds the records of the sources that answered, first the local ones
      and then the remote ones, none missing, doubled or fused; and it holds them with the
      tables' own strings if and only if none of these has a newline, carriage return, tab or NUL. */
  lemma BroughtThroughMixer(l: string, here: bool, local: seq<E.Entry>, r: string, there: bool, remote: seq<E.Entry>, remoteFailure: string)
    requires Brings(l, here, local) && Brings(r, there, remote) && (here || there)
    ensures var reply, all := Mix(l, r, remoteFailure), Brought(here, local) + Brought(there, remote);
            && reply.Some? && ReadSexp(reply.value) == Ok(ValueReply(RecordTrees(all)), "")
            && (ReadSexp(reply.value) == Ok(ValueReply(OwnRecords(all)), "") <==> AllIntact(all))
  {
    var all := Brought(here, local) + Brought(there, remote);
    hide AllIntact, OwnRecords, Brings, Brought;
    RecordsArrive(all);
    hide RecordTree, ValueReply, ReadSexp, SelfDelimiting, Faithful, FromReply;
    BringsElements(l, here, local);
    BringsElements(r, there, remote);
    var records := RecordTrees(all);
    RecordTreesAppend(Brought(here, local), Brought(there, remote));
    forall k | 0 <= k < |records|
      ensures SelfDelimiting(records[k]) && Faithful(records[k], true)
    {
      RecordTreeFaithful(all[k]);
    }
    FaithfulElements(records);
    assert BothElements(l, r) == records;
    MixedReply(l, r, remoteFailure);
  }

  /** If no source answers, the remote failure is the reply. */
  lemma NothingThroughMixer(l: string, r: string, remoteFailure: string)
    requires Brings(l, false, []) && Brings(r, false, []) && remoteFailure != ""
    ensures Mix(l, r, remoteFailure) == Some(ErrorText(remoteFailure))
  {
    hide FromReply;
    NothingFrom();
  }

  /** The whole way of two lookups. */
  lemma LookupThroughMixer(high1: int32, low1: int32, n1: int32, local: seq<E.Entry>,
                           high2: int32, low2: int32, n2: int32, remote: seq<E.Entry>, remoteFailure: string)
    ensures var reply := Mix(LookupReply(high1, low1, n1, local), LookupReply(high2, low2, n2, remote), remoteFailure);
            && reply.Some? && ReadSexp(reply.value) == Ok(ValueReply(RecordTrees(local + remote)), "")
            && (ReadSexp(reply.value) == Ok(ValueReply(OwnRecords(local + remote)), "") <==> AllIntact(local + remote))
  {
    hide LookupReply, RecordTrees, ValueReply, ReadSexp, FromReply, Mix, OwnRecords, AllIntact;
    LookupContributes(high1, low1, n1, local);
    LookupContributes(high2, low2, n2, remote);
    BroughtThroughMixer(LookupReply(high1, low1, n1, local), true, local, LookupReply(high2, low2, n2, remote), true, remote, remoteFailure);
  }

  /** If only one source answers, its records come through alone. */
  lemma LookupFromOneSource(high: int32, low: int32, n: int32, es: seq<E.Entry>, reason: string)
    ensures var reply := Mix(LookupReply(high, low, n, es), "()", reason);
            reply.Some? && ReadSexp(reply.value) == Ok(ValueReply(RecordTrees(es)), "")
    ensures var reply := Mix("", LookupReply(high, low, n, es), "");
            reply.Some? && ReadSexp(reply.value) == Ok(ValueReply(RecordTrees(es)), "")
  {
    hide LookupReply, RecordTrees, ValueReply, ReadSexp, FromReply, Mix, OwnRecords, AllIntact;
    LookupContributes(high, low, n, es);
    Neutral(es);
    var text := LookupReply(high, low, n, es);
    BroughtThroughMixer(text, true, es, "()", false, [], reason);
    BroughtThroughMixer("", false, [], text, true, es, "");
  }

  // ----- With every interleaving of the services

  /** What a service does with the lookup. Every server finds the same records, but
      answers with its own start time and sequence number. */
  datatype Service = Fails | Answers(high: int32, low: int32, number: int32)

  function RepliesOf(services: map<nat, Service>, es: seq<E.Entry>): map<nat, P.Reply> {
    map t | t in services ::
      if services[t].Fails? then P.Failure
      else P.Result(LookupReply(services[t].high, services[t].low, services[t].number, es))
  }

  ghost predicate SomeAnswer(services: map<nat, Service>) {
    exists t :: t in services && services[t].Answers?
  }

  /** What the source stands for once all is over. */
  lemma AnswerBrings(first: Option<string>, services: map<nat, Service>, es: seq<E.Entry>)
    requires Runs.Possible(first, RepliesOf(services, es))
    ensures Brings(Runs.Answer(first).0, SomeAnswer(services), es)
    ensures Runs.Answer(first).1 == if SomeAnswer(services) then "" else P.CONNECT_FAILURE
  {
    hide LookupReply, FromReply, RecordTrees;
    assert RepliesOf(services, es).Keys == services.Keys;
    if SomeAnswer(services) {
      var w :| w in services && services[w].Answers?;
      assert RepliesOf(services, es)[w].Result?;
      var t :| t in RepliesOf(services, es) && RepliesOf(services, es)[t] == P.Result(first.value);
      LookupContributes(services[t].high, services[t].low, services[t].number, es);
    }
  }

  /** The local services, if the corpus has any, and what they reply. */
  function LocalReplies(local: Option<map<nat, Service>>, es: seq<E.Entry>): Option<map<nat, P.Reply>> {
    match local
    case None => None
    case Some(services) => Some(RepliesOf(services, es))
  }

  ghost predicate LocalAnswers(local: Option<map<nat, Service>>) {
    local.Some? && SomeAnswer(local.value)
  }

  /** Every source that exists has a service. */
  predicate Staffed(local: Option<map<nat, Service>>, remote: map<nat, Service>) {
    remote.Keys != {} && (local.Some? ==> local.value.Keys != {})
  }

  /** The records of the sources that have a service that answers. */
  ghost function AllBrought(local: Option<map<nat, Service>>, remote: map<nat, Service>, here: seq<E.Entry>, there: seq<E.Entry>): seq<E.Entry> {
    Brought(LocalAnswers(local), here) + Brought(SomeAnswer(remote), there)
  }

  /** What every run ends with. */
  lemma RaceEnds(local: Option<map<nat, Service>>, remote: map<nat, Service>, schedule: P.Schedule, s: P.State,
                 here: seq<E.Entry>, there: seq<E.Entry>) returns (l: string, r: string, failure: string)
    requires Staffed(local, remote)
    requires P.Run(P.Init(LocalReplies(local, here), RepliesOf(remote, there)), schedule) == Some(s) && Runs.Ended(s)
    ensures s.mixer.reply == Mix(l, r, failure) && s.mixer.callbackRuns == if s.mixer.reply.Some? then 1 else 0
    ensures Brings(l, LocalAnswers(local), here) && Brings(r, SomeAnswer(remote), there)
    ensures failure == if SomeAnswer(remote) then "" else P.CONNECT_FAILURE
  {
    StaffedServes(local, remote, here, there);
    hide LookupReply, FromReply, RecordTrees, RepliesOf, SomeAnswer, Mix, P.Run, P.Init, Runs.Ended, Runs.Possible;
    var first, last := Runs.CompletedRun(LocalReplies(local, here), RepliesOf(remote, there), schedule, s);
    if local.Some? { AnswerBrings(first, local.value, here); }
    AnswerBrings(last, remote, there);
    l, r, failure := Runs.Answer(first).0, Runs.Answer(last).0, Runs.Answer(last).1;
  }

  lemma StaffedServes(local: Option<map<nat, Service>>, remote: map<nat, Service>, here: seq<E.Entry>, there: seq<E.Entry>)
    requires Staffed(local, remote)
    ensures Runs.Served(LocalReplies(local, here), RepliesOf(remote, there))
  {
    assert RepliesOf(remote, there).Keys == remote.Keys;
    if local.Some? { assert RepliesOf(local.value, here).Keys == local.value.Keys; }
  }

  /** However the services race, whichever of them fail, with or without a local source: the
      client gets exactly one reply. It reads from it the records of the sources that have
      answered, the local ones first, or the failure if there is none. */
  lemma EveryRaceAnswers(local: Option<map<nat, Service>>, remote: map<nat, Service>, schedule: P.Schedule, s: P.State,
                         here: seq<E.Entry>, there: seq<E.Entry>)
    requires Staffed(local, remote)
    requires P.Run(P.Init(LocalReplies(local, here), RepliesOf(remote, there)), schedule) == Some(s) && Runs.Ended(s)
    ensures s.mixer.callbackRuns == 1 && s.mixer.reply.Some?
    ensures var all := AllBrought(local, remote, here, there);
      LocalAnswers(local) || SomeAnswer(remote) ==>
        && ReadSexp(s.mixer.reply.value) == Ok(ValueReply(RecordTrees(all)), "")
        && (ReadSexp(s.mixer.reply.value) == Ok(ValueReply(OwnRecords(all)), "") <==> AllIntact(all))
    ensures !LocalAnswers(local) && !SomeAnswer(remote) ==>
      && s.mixer.reply.value == ErrorText(P.CONNECT_FAILURE)
      && ReadSexp(s.mixer.reply.value) == Ok(ErrorTree(P.CONNECT_FAILURE), "")
  {
    hide LookupReply, RepliesOf, LocalReplies, SomeAnswer, LocalAnswers, RecordTrees, OwnRecords, AllIntact, ValueReply;
    hide ReadSexp, Mix, P.Run, P.Init, Runs.Ended, ErrorText, ErrorTree, FromReply, Brought;
    var l, r, failure := RaceEnds(local, remote, schedule, s, here, there);
    if LocalAnswers(local) || SomeAnswer(remote) {
      BroughtThroughMixer(l, LocalAnswers(local), here, r, SomeAnswer(remote), there, failure);
    } else {
      NothingThroughMixer(l, r, failure);
      FailureIsPlain();
      ErrorReplyExactly(P.CONNECT_FAILURE);
    }
  }

  lemma FailureIsPlain()
    ensures Unescaped(P.CONNECT_FAILURE) && Literal(P.CONNECT_FAILURE)
  {
    var a, b := "Failed to connect ", "to remote services.";
    assert P.CONNECT_FAILURE == a + b;
    FirstHalf();
    SecondHalf();
    hide Unescaped;
    UnescapedPieces(a, b);
    UnescapedIsLiteral(a + b);
  }

  lemma FirstHalf()
    ensures Unescaped("Failed to connect ")
  {
  }

  lemma SecondHalf()
    ensures Unescaped("to remote services.")
  {
  }
}
