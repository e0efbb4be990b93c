/** Requests to the mixer (mixerrequesthandler.cc): what is answered at once, what is
    dispatched to data sources, and that every answered request gets one reply. */
module MixerRequests {
  import opened CStrings
  import Sequences
  import opened Numerals
  import opened SExpressions
  import opened RoundTrip
  import opened Framing
  import opened Mixing
  import opened ErrorReplies
  import P = MixerProtocol
  import Runs = MixerRuns

  /** A data source is known by the number of its services. */
  datatype DataSource = DataSource(size: nat)

  /** The two kinds of source a language may have. */
  datatype Kinds = Kinds(definitions: Option<DataSource>, callgraph: Option<DataSource>)

  type LanguageMap = map<string, Kinds>

  datatype Settings = Settings(corpus: string, language: string, callers: bool)

  datatype Request = Request(corpus: string, language: string, callers: bool, clientPath: string, request: string)

  // ----- The attributes of a command

  /** The attribute is missing or has a value; otherwise looking it up ends the program. */
  predicate LookupSurvives(e: SExp, key: string) {
    AssocGet(e, key).Found? || AssocGet(e, key).Missing?
  }

  function StringAttribute(e: SExp, key: string, default: string): string {
    match AssocGet(e, key) case Found(Str(value)) => value case _ => default
  }

  function RequestOf(e: SExp, settings: Settings): Request {
    Request(StringAttribute(e, "corpus", settings.corpus), StringAttribute(e, "language", settings.language),
            if AssocGet(e, "callers").Found? then !AssocGet(e, "callers").value.Nil? else settings.callers,
            StringAttribute(e, "current-file", ""), Repr(e))
  }

  predicate IsPing(e: SExp) {
    e.IsList() && e.Pair? && e.car == Symbol("ping")
  }

  /** The commands that the handler survives: one readable expression, and unless it is a
      ping, not the empty list, and each of the four attributes missing or with a value. */
  predicate Survivable(command: string) {
    match ReadSexp(CStr(command))
    case Ok(e, _) =>
      IsPing(e) || (!e.Nil? && LookupSurvives(e, "corpus") && LookupSurvives(e, "language") && LookupSurvives(e, "callers") && LookupSurvives(e, "current-file"))
    case _ => false
  }

  /** The tree of a survivable command. */
  function TreeOf(command: string): SExp
    requires Survivable(command)
  {
    ReadSexp(CStr(command)).value
  }

  /** The source that the request names: corpus, language and kind must all exist. */
  function SourceOf(sources: map<string, LanguageMap>, r: Request): Option<DataSource> {
    if r.corpus !in sources || r.language !in sources[r.corpus] then None
    else if r.callers then sources[r.corpus][r.language].callgraph else sources[r.corpus][r.language].definitions
  }

  function LocalOf(sources: map<string, LanguageMap>, r: Request): Option<Option<DataSource>>
    requires r.corpus in sources
  {
    if "local" !in sources[r.corpus] then None
    else Some(if r.callers then sources[r.corpus]["local"].callgraph else sources[r.corpus]["local"].definitions)
  }

  function Caller(r: Request): string {
    if r.callers then "t" else "nil"
  }

  /** What is reported when the request names no source. */
  function FailureOf(sources: map<string, LanguageMap>, r: Request): string {
    if r.corpus !in sources then "Failed to find corpus " + r.corpus
    else if r.language !in sources[r.corpus] then
      "Failed to map language " + r.language + ", callers: " + Caller(r) + ", corpus: " + r.corpus + " into RPC stubs."
    else r.language + " does not support caller type " + Caller(r)
  }

  // ----- What a command says

  const CORPUS: cstring := "corpus"
  const LANGUAGE: cstring := "language"
  const CALLERS: cstring := "callers"
  const CURRENT_FILE: cstring := "current-file"

  /** A command with its four attributes, as a client writes them. */
  function CommandText(name: cstring, corpus: cstring, language: cstring, callers: bool, file: cstring): string {
    "(" + Spaced([name, Entry(CORPUS, Quote(corpus)), Entry(LANGUAGE, Quote(language)),
                  Entry(CALLERS, if callers then "t" else "nil"), Entry(CURRENT_FILE, Quote(file))]) + ")"
  }

  function Quote(s: cstring): string {
    "\"" + CEscapeAll(s) + "\""
  }

  function CommandTree(name: cstring, corpus: cstring, language: cstring, callers: bool, file: cstring): SExp {
    Chain([Symbol(name), EntryTree(CORPUS, Str(corpus)), EntryTree(LANGUAGE, Str(language)),
           EntryTree(CALLERS, if callers then Symbol("t") else Nil), EntryTree(CURRENT_FILE, Str(file))], Nil)
  }

  /** None of the characters that the printer replaces by letters. */
  predicate Printable(s: cstring) {
    forall k :: 0 <= k < |s| ==> !Soft(s[k])
  }

  lemma AttributeKeys()
    ensures Key(CORPUS) && Key(LANGUAGE) && Key(CALLERS) && Key(CURRENT_FILE)
  {
    hide Key;
    CorpusIsKey();
    LanguageIsKey();
    CallersIsKey();
    FileIsKey();
  }

  lemma CorpusIsKey()
    ensures Key(CORPUS)
  {
    LowerKey(CORPUS);
  }

  lemma LanguageIsKey()
    ensures Key(LANGUAGE)
  {
    LowerKey(LANGUAGE);
  }

  lemma CallersIsKey()
    ensures Key(CALLERS)
  {
    LowerKey(CALLERS);
  }

  lemma FileIsKey()
    ensures Key(CURRENT_FILE)
  {
    LowerKey(CURRENT_FILE);
  }

  lemma QuoteDenotes(s: cstring)
    requires Printable(s)
    ensures Denotes(Quote(s), Str(s))
  {
    StringDenotes(s);
    SoftenFixpoint(s);
    AnywhereDenotes(Quote(s), Str(s));
  }

  lemma FlagDenotes(b: bool)
    ensures Denotes(if b then "t" else "nil", if b then Symbol("t") else Nil)
  {
    forall suffix: string | EndsToken(suffix)
      ensures ReadSexp((if b then "t" else "nil") + suffix) == Ok(if b then Symbol("t") else Nil, suffix)
    {
      if b {
        assert !IntToken("t") && "t"[0] == 't';
        BareTokenRead("t", suffix);
      } else {
        NilRoundTrip(suffix, false);
      }
    }
  }

  lemma CommandDenotes(name: cstring, corpus: cstring, language: cstring, callers: bool, file: cstring)
    requires Key(name) && Printable(corpus) && Printable(language) && Printable(file)
    ensures DenotesAnywhere(CommandText(name, corpus, language, callers, file), CommandTree(name, corpus, language, callers, file))
  {
    hide Denotes, DenotesAnywhere, Key, Printable, Quote, Entry, EntryTree;
    AttributeKeys();
    KeyDenotes(name);
    Attribute(CORPUS, Quote(corpus), Str(corpus), corpus);
    Attribute(LANGUAGE, Quote(language), Str(language), language);
    FlagDenotes(callers);
    AttributeDenotes(CALLERS, if callers then "t" else "nil", if callers then Symbol("t") else Nil);
    Attribute(CURRENT_FILE, Quote(file), Str(file), file);
    FiveDenote(name, Entry(CORPUS, Quote(corpus)), Entry(LANGUAGE, Quote(language)),
               Entry(CALLERS, if callers then "t" else "nil"), Entry(CURRENT_FILE, Quote(file)),
               Symbol(name), EntryTree(CORPUS, Str(corpus)), EntryTree(LANGUAGE, Str(language)),
               EntryTree(CALLERS, if callers then Symbol("t") else Nil), EntryTree(CURRENT_FILE, Str(file)));
  }

  lemma Attribute(key: cstring, x: string, e: SExp, s: cstring)
    requires Key(key) && Printable(s) && x == Quote(s) && e == Str(s)
    ensures Denotes(Entry(key, x), EntryTree(key, e))
  {
    QuoteDenotes(s);
    AttributeDenotes(key, x, e);
  }

  lemma AttributeDenotes(key: cstring, x: string, e: SExp)
    requires Key(key) && Denotes(x, e)
    ensures Denotes(Entry(key, x), EntryTree(key, e))
  {
    hide Key, Entry, EntryTree;
    EntryDenotes(key, x, e);
    AnywhereDenotes(Entry(key, x), EntryTree(key, e));
  }

  lemma FiveDenote(a: string, b: string, c: string, d: string, e: string, a': SExp, b': SExp, c': SExp, d': SExp, e': SExp)
    requires Denotes(a, a') && Denotes(b, b') && Denotes(c, c') && Denotes(d, d') && Denotes(e, e')
    ensures DenotesAnywhere("(" + Spaced([a, b, c, d, e]) + ")", Chain([a', b', c', d', e'], Nil))
  {
    hide Denotes, DenotesAnywhere, Spaced, Chain;
    SpacedList([a, b, c, d, e], [a', b', c', d', e']);
  }

  /** Each attribute of a command feeds the field of the request that is named after it. */
  lemma CommandMeans(name: cstring, corpus: cstring, language: cstring, callers: bool, file: cstring, settings: Settings)
    requires Key(name) && name != "ping" && Printable(corpus) && Printable(language) && Printable(file)
    ensures var text := CommandText(name, corpus, language, callers, file);
      && Survivable(text) && !IsPing(TreeOf(text))
      && var r := RequestOf(TreeOf(text), settings);
         r.corpus == corpus && r.language == language && r.callers == callers && r.clientPath == file
  {
    var text, tree := CommandText(name, corpus, language, callers, file), CommandTree(name, corpus, language, callers, file);
    CommandRead(name, corpus, language, callers, file);
    hide CommandText, CommandTree, ReadSexp, CStr;
    CommandFields(name, corpus, language, callers, file);
    assert TreeOf(text) == tree;
  }

  lemma CommandRead(name: cstring, corpus: cstring, language: cstring, callers: bool, file: cstring)
    requires Key(name) && Printable(corpus) && Printable(language) && Printable(file)
    ensures var text := CommandText(name, corpus, language, callers, file);
      ReadSexp(CStr(text)) == Ok(CommandTree(name, corpus, language, callers, file), "")
  {
    hide CommandTree, ReadSexp, Key, Printable;
    var text := CommandText(name, corpus, language, callers, file);
    CommandDenotes(name, corpus, language, callers, file);
    CleanCommand(name, corpus, language, callers, file);
    CleanWhole(text);
    Sequences.Neutral(text);
  }

  lemma CleanCommand(name: cstring, corpus: cstring, language: cstring, callers: bool, file: cstring)
    ensures Clean(CommandText(name, corpus, language, callers, file))
  {
    hide Clean, Entry, CEscapeAll;
    CleanQuoted(corpus);
    CleanQuoted(language);
    CleanQuoted(file);
    var flag := if callers then "t" else "nil";
    assert Clean(name) && Clean(flag) by { CleanName(name); CleanName("t"); CleanName("nil"); }
    CleanEntry(CORPUS, Quote(corpus));
    CleanEntry(LANGUAGE, Quote(language));
    CleanEntry(CALLERS, flag);
    CleanEntry(CURRENT_FILE, Quote(file));
    var xs := [name, Entry(CORPUS, Quote(corpus)), Entry(LANGUAGE, Quote(language)), Entry(CALLERS, flag),
               Entry(CURRENT_FILE, Quote(file))];
    CleanSpaced(xs);
    CleanParens(Spaced(xs));
  }

  lemma CleanName(name: cstring)
    ensures Clean(name)
  {
  }

  lemma CleanQuoted(s: cstring)
    ensures Clean(Quote(s))
  {
    hide Clean, CEscapeAll;
    CleanEscape(s);
    assert Clean("\"") by { CleanName("\""); }
    CleanConcat("\"", CEscapeAll(s));
    CleanConcat("\"" + CEscapeAll(s), "\"");
  }

  lemma CommandFields(name: cstring, corpus: cstring, language: cstring, callers: bool, file: cstring)
    requires name != "ping"
    ensures var tree, flag := CommandTree(name, corpus, language, callers, file), if callers then Symbol("t") else Nil;
      && AssocGet(tree, "corpus") == Found(Str(corpus)) && AssocGet(tree, "language") == Found(Str(language))
      && AssocGet(tree, "callers") == Found(flag) && AssocGet(tree, "current-file") == Found(Str(file))
      && !IsPing(tree) && !tree.Nil?
  {
    var flag := if callers then Symbol("t") else Nil;
    var c, l, k, f := EntryTree(CORPUS, Str(corpus)), EntryTree(LANGUAGE, Str(language)), EntryTree(CALLERS, flag),
                      EntryTree(CURRENT_FILE, Str(file));
    var entries := [Symbol(name), c, l, k, f];
    ChainIsList(entries);
    IsKeyed(CORPUS, Str(corpus));
    IsKeyed(LANGUAGE, Str(language));
    IsKeyed(CALLERS, flag);
    IsKeyed(CURRENT_FILE, Str(file));
    assert |CORPUS| == 6 && |LANGUAGE| == 8 && |CALLERS| == 7 && |CURRENT_FILE| == 12;
    hide EntryTree, AssocIn;
    AssocFirst(entries, CORPUS, 1);
    AssocFirst(entries, LANGUAGE, 2);
    AssocFirst(entries, CALLERS, 3);
    AssocFirst(entries, CURRENT_FILE, 4);
  }

  lemma IsKeyed(key: cstring, e: SExp)
    ensures var entry := EntryTree(key, e);
      && !Headless(entry) && (forall other: string :: Keyed(entry, other) <==> other == key)
      && entry.Pair? && entry.cdr.Pair? && entry.cdr.car == e
  {
    ChainOfTwo(Symbol(key), e);
    var behind := Pair(e, Nil);
    assert behind.IsList() && Pair(Symbol(key), behind).IsList();
  }

  /** A command without attributes has those of the settings. */
  lemma BareCommandMeans(name: cstring, settings: Settings)
    requires Key(name) && name != "ping"
    ensures var text := "(" + name + ")";
      && Survivable(text) && !IsPing(TreeOf(text))
      && var r := RequestOf(TreeOf(text), settings);
         r.corpus == settings.corpus && r.language == settings.language && r.callers == settings.callers && r.clientPath == ""
  {
    hide Denotes, DenotesAnywhere, ReadSexp;
    var text := "(" + name + ")";
    KeyDenotes(name);
    var entries: seq<SExp> := [Symbol(name)];
    SpacedList([name], entries);
    assert Spaced([name]) == name;
    assert Clean(text) by { CleanName(name); CleanParens(name); }
    CleanWhole(text);
    WholeText(text, Chain(entries, Nil));
    ChainIsList(entries);
    AssocMissing(entries, "corpus");
    AssocMissing(entries, "language");
    AssocMissing(entries, "callers");
    AssocMissing(entries, "current-file");
    assert Chain(entries, Nil) == Pair(Symbol(name), Chain(entries[1..], Nil));
  }

  // ----- The handler

  /** The callback of one connection: how often it was run, and with what. */
  class ResponseCallback {
    var runs: nat
    var response: string

    constructor ()
      ensures runs == 0
    {
      runs, response := 0, "";
    }

    method Run(response: string)
      modifies this
      ensures runs == old(runs) + 1 && this.response == response
    {
      this.response := response;
      runs := runs + 1;
    }
  }

  /** What Execute leaves behind: a reply already given, or a mixer that waits for the
      remote source and for the local one, if the corpus has one. */
  datatype Outcome = Replied | Dispatched(request: Request, remote: DataSource, local: Option<DataSource>) | Crashes

  class MixerRequestHandler {
    const sources: map<string, LanguageMap>
    const settings: Settings

    constructor (sources: map<string, LanguageMap>, settings: Settings)
      ensures this.sources == sources && this.settings == settings
    {
      this.sources, this.settings := sources, settings;
    }

    /** None: the end of an empty list is dereferenced. */
    method IsCommandPing(sexpr: SExp) returns (r: Option<bool>)
      ensures r == if sexpr.Nil? then None else Some(IsPing(sexpr))
    {
      if !sexpr.IsList() {
        return Some(false);
      }
      if sexpr.Nil? {
        return None;
      }
      if !(sexpr.car.Symbol? || sexpr.car.Nil?) {
        return Some(false);
      }
      var text := new StringBuffer();
      WriteRepr(sexpr.car, text);
      Sequences.Neutral(Repr(sexpr.car));
      PingRepr(sexpr.car);
      r := Some(text.text == "ping");
    }

    /** None: one of the lookups ends the program. */
    method CreateDataSourceRequest(sexpr: SExp) returns (r: Option<Request>)
      ensures r.Some? <==> LookupSurvives(sexpr, "corpus") && LookupSurvives(sexpr, "language") && LookupSurvives(sexpr, "callers") && LookupSurvives(sexpr, "current-file")
      ensures r.Some? ==> r.value == RequestOf(sexpr, settings)
    {
      var corpusExpr := SExpressionAssocGet(sexpr, "corpus");
      if corpusExpr.CheckFails? || corpusExpr.PastEnd? { return None; }
      var corpus := if corpusExpr.Found? && corpusExpr.value.Str? then corpusExpr.value.value else settings.corpus;
      var langExpr := SExpressionAssocGet(sexpr, "language");
      if langExpr.CheckFails? || langExpr.PastEnd? { return None; }
      var language := if langExpr.Found? && langExpr.value.Str? then langExpr.value.value else settings.language;
      var callersExpr := SExpressionAssocGet(sexpr, "callers");
      if callersExpr.CheckFails? || callersExpr.PastEnd? { return None; }
      var callers := if callersExpr.Missing? then settings.callers else !callersExpr.value.Nil?;
      var fileExpr := SExpressionAssocGet(sexpr, "current-file");
      if fileExpr.CheckFails? || fileExpr.PastEnd? { return None; }
      var clientPath := if fileExpr.Found? && fileExpr.value.Str? then fileExpr.value.value else "";
      var text := new StringBuffer();
      WriteRepr(sexpr, text);
      Sequences.Neutral(Repr(sexpr));
      r := Some(Request(corpus, language, callers, clientPath, text.text));
    }

    /** Replies at once, exactly one time, or dispatches the request and replies not yet. */
    method Execute(command: string, callback: ResponseCallback) returns (outcome: Outcome)
      modifies callback
      ensures outcome.Crashes? <==>
        !Survivable(command) || (var e := TreeOf(command); var r := RequestOf(e, settings);
          !IsPing(e) && SourceOf(sources, r).Some? && LocalOf(sources, r) == Some(None))
      ensures outcome.Dispatched? <==> !outcome.Crashes? && !IsPing(TreeOf(command)) && SourceOf(sources, RequestOf(TreeOf(command), settings)).Some?
      ensures outcome.Dispatched? ==>
        && outcome.request == RequestOf(TreeOf(command), settings)
        && outcome.remote == SourceOf(sources, outcome.request).value
        && LocalOf(sources, outcome.request) == (if outcome.local.None? then None else Some(outcome.local))
        && callback.runs == old(callback.runs)
      ensures outcome.Dispatched? ==> var r := outcome.request;
                && r.corpus in sources && r.language in sources[r.corpus]
                && Some(outcome.remote) == (if r.callers then sources[r.corpus][r.language].callgraph
                                            else sources[r.corpus][r.language].definitions)
                && (if "local" in sources[r.corpus]
                    then outcome.local.Some? && outcome.local == (if r.callers then sources[r.corpus]["local"].callgraph
                                                                  else sources[r.corpus]["local"].definitions)
                    else outcome.local.None?)
      ensures outcome.Replied? ==> callback.runs == old(callback.runs) + 1
      ensures outcome.Replied? && IsPing(TreeOf(command)) ==> callback.response == "((value t))"
      ensures outcome.Replied? && !IsPing(TreeOf(command)) ==>
                callback.response == ErrorText(FailureOf(sources, RequestOf(TreeOf(command), settings)))
    {
      var parsed := Parse(command);
      if !parsed.Tree? {
        // Without a tree, the lookups of CreateDataSourceRequest have nothing to work on.
        return Crashes;
      }
      var sexpr := parsed.value;
      var ping := IsCommandPing(sexpr);
      if ping.None? {
        return Crashes;
      }
      if ping.value {
        callback.Run("((value t))");
        return Replied;
      }
      var created := CreateDataSourceRequest(sexpr);
      if created.None? {
        return Crashes;
      }
      var request := created.value;
      if request.corpus !in sources {
        var message := "((error ((message \"Failed to find corpus ";
        message := message + request.corpus;
        message := message + "\"))))";
        NoCorpus(request.corpus);
        callback.Run(message);
        return Replied;
      }
      var languageMap := sources[request.corpus];
      if request.language !in languageMap {
        var message := "((error ((message \"Failed to map language ";
        message := message + request.language;
        message := message + ", callers: ";
        message := message + (if request.callers then "t" else "nil");
        message := message + ", corpus: ";
        message := message + request.corpus;
        message := message + " into RPC stubs.\"))))";
        NoLanguage(request.language, Caller(request), request.corpus);
        callback.Run(message);
        return Replied;
      }
      var pair := languageMap[request.language];
      var source := if request.callers then pair.callgraph else pair.definitions;
      if source.None? {
        var message := "((error ((message \"";
        message := message + request.language;
        message := message + " does not support caller type ";
        message := message + (if request.callers then "t" else "nil");
        message := message + "\"))))";
        NoCaller(request.language, Caller(request));
        callback.Run(message);
        return Replied;
      }
      if "local" !in languageMap {
        return Dispatched(request, source.value, None);
      }
      var localPair := languageMap["local"];
      var localSource := if request.callers then localPair.callgraph else localPair.definitions;
      if localSource.None? {
        return Crashes;
      }
      outcome := Dispatched(request, source.value, localSource);
    }
  }

  lemma NoCorpus(corpus: string)
    ensures "((error ((message \"Failed to find corpus " + corpus + "\"))))" == ErrorText("Failed to find corpus " + corpus)
  {
  }

  lemma NoLanguage(language: string, caller: string, corpus: string)
    ensures "((error ((message \"Failed to map language " + language + ", callers: " + caller + ", corpus: " + corpus
            + " into RPC stubs.\"))))"
         == ErrorText("Failed to map language " + language + ", callers: " + caller + ", corpus: " + corpus + " into RPC stubs.")
  {
    var opening, m := "((error ((message \"", "Failed to map language ";
    assert "((error ((message \"Failed to map language " == opening + m;
    Sequences.Associative(opening, m, language);
    m := m + language;
    Sequences.Associative(opening, m, ", callers: ");
    m := m + ", callers: ";
    Sequences.Associative(opening, m, caller);
    m := m + caller;
    Sequences.Associative(opening, m, ", corpus: ");
    m := m + ", corpus: ";
    Sequences.Associative(opening, m, corpus);
    m := m + corpus;
    Sequences.Associative(opening, m, " into RPC stubs.");
    assert " into RPC stubs.\"))))" == " into RPC stubs." + "\"))))";
    Sequences.Associative(opening + m, " into RPC stubs.", "\"))))");
  }

  lemma NoCaller(language: string, caller: string)
    ensures "((error ((message \"" + language + " does not support caller type " + caller + "\"))))"
         == ErrorText(language + " does not support caller type " + caller)
  {
    var opening := "((error ((message \"";
    Sequences.Associative(opening, language, " does not support caller type ");
    Sequences.Associative(opening, language + " does not support caller type ", caller);
  }

  /** The names that a failure repeats: of a corpus that is not known, of a language that its
      corpus does not know and of that corpus, or of a language without such a source. */
  function NamesIn(sources: map<string, LanguageMap>, r: Request): seq<string> {
    if r.corpus !in sources then [r.corpus]
    else if r.language !in sources[r.corpus] then [r.language, r.corpus]
    else [r.language]
  }

  /** The client reads a failure as its message if and only if none of the names in it
      holds a quote, a backslash or a NUL. */
  lemma FailureIsRead(sources: map<string, LanguageMap>, r: Request)
    ensures ReadWhole(FailureOf(sources, r)) <==> forall name :: name in NamesIn(sources, r) ==> Literal(name)
  {
    hide ReadWhole, Literal;
    ErrorReplyExactly(FailureOf(sources, r));
    FixedPieces(Caller(r));
    if r.corpus !in sources {
      LiteralPieces("Failed to find corpus ", r.corpus);
      assert NamesIn(sources, r)[0] == r.corpus;
    } else if r.language !in sources[r.corpus] {
      var m := "Failed to map language ";
      LiteralPieces(m, r.language);
      m := m + r.language;
      LiteralPieces(m, ", callers: ");
      m := m + ", callers: ";
      LiteralPieces(m, Caller(r));
      m := m + Caller(r);
      LiteralPieces(m, ", corpus: ");
      m := m + ", corpus: ";
      LiteralPieces(m, r.corpus);
      LiteralPieces(m + r.corpus, " into RPC stubs.");
      assert NamesIn(sources, r)[0] == r.language && NamesIn(sources, r)[1] == r.corpus;
    } else {
      LiteralPieces(r.language, " does not support caller type ");
      LiteralPieces(r.language + " does not support caller type ", Caller(r));
      assert NamesIn(sources, r)[0] == r.language;
    }
  }

  lemma FixedPieces(caller: string)
    requires caller == "t" || caller == "nil"
    ensures Literal("Failed to find corpus ") && Literal("Failed to map language ") && Literal(" into RPC stubs.")
    ensures Literal(", callers: ") && Literal(caller) && Literal(", corpus: ") && Literal(" does not support caller type ")
  {
    hide Literal;
    CorpusPiece();
    LanguagePiece();
    StubsPiece();
    ShortPieces();
    SupportPiece();
  }

  lemma CorpusPiece()
    ensures Literal("Failed to find corpus ")
  {
  }

  lemma LanguagePiece()
    ensures Literal("Failed to map language ")
  {
  }

  lemma StubsPiece()
    ensures Literal(" into RPC stubs.")
  {
  }

  lemma ShortPieces()
    ensures Literal(", callers: ") && Literal(", corpus: ") && Literal("t") && Literal("nil")
  {
  }

  lemma SupportPiece()
    ensures Literal(" does not support caller type ")
  {
  }

  /** Only the symbol ping is printed as ping. */
  lemma PingRepr(e: SExp)
    requires e.Symbol? || e.Nil?
    ensures Repr(e) == "ping" <==> e == Symbol("ping")
  {
    var ping: cstring := "ping";
    assert ping[0] == 'p' && !NeedsQuoting(ping);
  }

  // ----- From the dispatch to the reply

  /** Every service of the source answers once. */
  predicate Answers(source: DataSource, replies: map<nat, P.Reply>) {
    |replies.Keys| == source.size
  }

  /** The services' replies fit the dispatch, and every source has a service. */
  predicate Served(outcome: Outcome, local: Option<map<nat, P.Reply>>, remote: map<nat, P.Reply>)
    requires outcome.Dispatched?
  {
    && outcome.remote.size > 0 && Answers(outcome.remote, remote)
    && (local.Some? <==> outcome.local.Some?)
    && (local.Some? ==> outcome.local.value.size > 0 && Answers(outcome.local.value, local.value))
  }

  /** Whatever the services of a dispatched request answer, and in whatever order: no
      object is used after it was freed, and the client gets at most one reply. */
  lemma DispatchedIsSafe(outcome: Outcome, local: Option<map<nat, P.Reply>>, remote: map<nat, P.Reply>,
                         schedule: P.Schedule, s: P.State)
    requires outcome.Dispatched? && Served(outcome, local, remote)
    requires P.Run(P.Init(local, remote), schedule) == Some(s)
    ensures forall id, t: nat :: !P.UsesFreed(s, id, t)
    ensures s.mixer.callbackRuns <= 1
  {
    hide P.Run, P.Init, P.UsesFreed, Mix;
    Runs.EveryRun(local, remote, schedule, s);
  }

  /** It is answered exactly once in every run if and only if no service answers with a
      text that the mixer does not survive. */
  lemma DispatchedIsAnswered(outcome: Outcome, local: Option<map<nat, P.Reply>>, remote: map<nat, P.Reply>)
    requires outcome.Dispatched? && Served(outcome, local, remote)
    ensures (forall schedule :: !Runs.EndsUnanswered(local, remote, schedule))
       <==> Runs.Harmless(remote) && (local.Some? ==> Runs.Harmless(local.value))
  {
    hide Runs.EndsUnanswered, Runs.Harmless;
    Runs.AnsweredExactly(local, remote);
  }
}
