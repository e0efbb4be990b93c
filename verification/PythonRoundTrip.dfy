/** What survives between the Python client and the server: strings both ways, and
    whole trees from the server's printer to the client's reader. */
module PythonRoundTrip {
  import opened CStrings
  import opened Sequences
  import opened Numerals
  import opened SExpressions
  import P = PythonClient

  // ----- The client's strings, read by the client

  /** Neither branch of parse_sexp_helper ever meets a dangling backslash when it
      unescapes what it has scanned. */
  lemma {:induction false} QuotedUnescapes(s: string)
    ensures P.ScanQuoted(s).Some? ==> P.Unescape(P.ScanQuoted(s).value.0).Some?
  {
    if s != "" && s[0] == '\\' && |s| > 1 {
      QuotedUnescapes(s[2..]);
      if P.ScanQuoted(s[2..]).Some? { PairFirst(s[..2], P.ScanQuoted(s[2..]).value.0); }
    } else if s != "" && s[0] != '\\' && s[0] != '"' {
      QuotedUnescapes(s[1..]);
      if P.ScanQuoted(s[1..]).Some? { AppendTail(s[..1], P.ScanQuoted(s[1..]).value.0); Neutral(P.ScanQuoted(s[1..]).value.0); }
    }
  }

  lemma {:induction false} SymbolUnescapes(s: string)
    ensures P.ScanSymbol(s).Some? ==> P.Unescape(P.ScanSymbol(s).value.0).Some?
  {
    if s != "" && s[0] == '\\' && |s| > 1 {
      SymbolUnescapes(s[2..]);
      if P.ScanSymbol(s[2..]).Some? { PairFirst(s[..2], P.ScanSymbol(s[2..]).value.0); }
    } else if s != "" && s[0] != '\\' && IsSymbolChar(s[0]) {
      SymbolUnescapes(s[1..]);
      if P.ScanSymbol(s[1..]).Some? { AppendTail(s[..1], P.ScanSymbol(s[1..]).value.0); Neutral(P.ScanSymbol(s[1..]).value.0); }
    }
  }

  lemma PairFirst(pair: string, s: string)
    requires |pair| == 2
    ensures pair + s != "" && (pair + s)[0] == pair[0] && (pair + s)[1] == pair[1] && (pair + s)[2..] == s
    ensures (pair + s)[..2] == pair
  {
  }

  lemma OneFirst(c: char, s: string)
    ensures ([c] + s)[0] == c && ([c] + s)[1..] == s && ([c] + s)[..1] == [c]
  {
  }

  /** One character in front: how it is printed, scanned and unescaped. */
  lemma ScanOne(c: char, s: string)
    requires c != '\\' && c != '"'
    ensures P.ScanQuoted([c] + s) == P.Behind([c], P.ScanQuoted(s)) && P.Unescape([c] + s) == P.Prefixed([c], P.Unescape(s))
  {
    OneFirst(c, s);
  }

  lemma ScanPair(c: char, s: string)
    ensures P.ScanQuoted(['\\', c] + s) == P.Behind(['\\', c], P.ScanQuoted(s))
    ensures P.Unescape(['\\', c] + s) == P.Prefixed(P.Unescaped(c), P.Unescape(s))
  {
    PairFirst(['\\', c], s);
  }

  lemma {:induction false} EscapeScans(s: string, rest: string)
    ensures P.ScanQuoted(P.LispEscape(s) + ("\"" + rest)) == Some((P.LispEscape(s), rest))
    ensures P.Unescape(P.LispEscape(s)) == Some(s)
  {
    if s == "" {
      Neutral("\"" + rest);
      OneFirst('"', rest);
    } else {
      var c, tail := s[0], P.LispEscape(s[1..]);
      EscapeScans(s[1..], rest);
      HeadTail(s);
      if c == '\\' || c == '"' {
        ScanPair(c, tail + ("\"" + rest));
        ScanPair(c, tail);
        Associative(['\\', c], tail, "\"" + rest);
      } else {
        ScanOne(c, tail + ("\"" + rest));
        ScanOne(c, tail);
        Associative([c], tail, "\"" + rest);
      }
    }
  }

  lemma QuotedShape(body: string, rest: string)
    ensures var t := "\"" + body + "\"" + rest; t != "" && t[0] == '"' && t[1..] == body + ("\"" + rest)
  {
  }

  /** Every string the client prints is read back unchanged by the client, whatever
      follows it. */
  lemma StringReadsBack(s: string, rest: string)
    ensures P.Read(P.LispRepr(s) + rest) == P.Parsed(P.PyString(s), rest)
  {
    hide P.LispEscape;
    EscapeScans(s, rest);
    QuotedShape(P.LispEscape(s), rest);
  }

  // ----- The client's strings, read by the server

  lemma {:induction false} ServerScans(s: string, rest: string)
    ensures ReadDelimited('"', P.LispEscape(s) + ("\"" + rest)) == if NUL in s then Null else Ok(s, rest)
  {
    if s == "" {
      Neutral("\"" + rest);
      OneFirst('"', rest);
    } else {
      var c, tail := s[0], P.LispEscape(s[1..]) + ("\"" + rest);
      ServerScans(s[1..], rest);
      HeadTail(s);
      if c == '\\' || c == '"' {
        Associative(['\\', c], P.LispEscape(s[1..]), "\"" + rest);
        PairFirst(['\\', c], tail);
        OneFirst(c, tail);
        assert (['\\', c] + tail)[1..] == [c] + tail;
      } else {
        Associative([c], P.LispEscape(s[1..]), "\"" + rest);
        OneFirst(c, tail);
      }
    }
  }

  /** The server reads the client's string unchanged exactly if it holds no NUL; with
      one, it reads nothing at all. */
  lemma ServerReadsClient(s: string, rest: string)
    ensures ReadSexp(P.LispRepr(s) + rest) == if NUL in s then Null else Ok(Str(s), rest)
  {
    hide P.LispEscape, ReadDelimited;
    ServerScans(s, rest);
    QuotedShape(P.LispEscape(s), rest);
  }

  // ----- The server's strings, read by the client

  /** The client drops the escapes it does not know: those of newline, carriage
      return and single quote. */
  predicate Dropped(c: char) {
    c == '\n' || c == '\r' || c == '\''
  }

  function Kept(s: string): string {
    if s == "" then "" else (if Dropped(s[0]) then "" else s[..1]) + Kept(s[1..])
  }

  lemma {:induction false} KeptLength(s: string)
    ensures |Kept(s)| <= |s|
    ensures Kept(s) == s <==> forall k :: 0 <= k < |s| ==> !Dropped(s[k])
  {
    if s != "" {
      KeptLength(s[1..]);
      assert forall k :: 0 < k < |s| ==> s[k] == s[1..][k - 1];
      HeadTail(s);
      if !Dropped(s[0]) { OneFirst(s[0], Kept(s[1..])); }
    }
  }

  lemma KeptWhole(s: string)
    ensures |Kept(s)| == |s| ==> Kept(s) == s
  {
    if s != "" {
      KeptLength(s[1..]);
      if |Kept(s)| == |s| {
        KeptWhole(s[1..]);
        HeadTail(s);
      }
    }
  }

  lemma {:induction false} CEscapeScans(s: string, rest: string)
    ensures P.ScanQuoted(CEscapeAll(s) + ("\"" + rest)) == Some((CEscapeAll(s), rest))
    ensures P.Unescape(CEscapeAll(s)) == Some(Kept(s))
  {
    if s == "" {
      Neutral("\"" + rest);
      OneFirst('"', rest);
    } else {
      var c, tail := s[0], CEscapeAll(s[1..]);
      CEscapeScans(s[1..], rest);
      Associative(CEscapeChar(c), tail, "\"" + rest);
      Escaped(c);
      assert s[..1] == [c];
      if |CEscapeChar(c)| == 2 {
        ScanPair(CEscapeChar(c)[1], tail + ("\"" + rest));
        ScanPair(CEscapeChar(c)[1], tail);
        Neutral(Kept(s[1..]));
      } else {
        ScanOne(c, tail + ("\"" + rest));
        ScanOne(c, tail);
      }
    }
  }

  lemma Escaped(c: char)
    ensures |CEscapeChar(c)| == 2 ==> CEscapeChar(c) == ['\\', CEscapeChar(c)[1]]
                                      && P.Unescaped(CEscapeChar(c)[1]) == if Dropped(c) then "" else [c]
    ensures |CEscapeChar(c)| == 1 ==> CEscapeChar(c) == [c] && c != '\\' && c != '"' && !Dropped(c)
  {
  }

  /** What the client reads of a string the server printed. */
  lemma ClientReadsString(s: string, rest: string)
    ensures P.Read(Repr(Str(s)) + rest) == P.Parsed(P.PyString(Kept(CStr(s))), rest)
  {
    hide CEscapeAll, CStr;
    CEscapeScans(CStr(s), rest);
    QuotedShape(CEscapeAll(CStr(s)), rest);
  }

  /** It is the string itself exactly if that holds no newline, carriage return or single quote (or NUL). */
  lemma ClientReadsStringExactly(s: string)
    ensures P.Read(Repr(Str(s))) == P.Parsed(P.PyString(s), "") <==> forall k :: 0 <= k < |s| ==> s[k] != NUL && !Dropped(s[k])
  {
    ClientReadsString(s, "");
    Neutral(Repr(Str(s)));
    KeptLength(CStr(s));
    if NUL in s {
      assert |Kept(CStr(s))| < |s|;
    }
  }

  // ----- The server's trees, read by the client

  /** The value the client makes of a tree: nil and negative numbers become symbols,
      improper lists proper ones. */
  function ClientValue(e: SExp): P.PyValue
    decreases e, 1
  {
    match e
    case Nil => P.PySymbol("nil")
    case Pair(_, _) => P.PyList(ClientItems(e))
    case Symbol(name) => P.PySymbol(name)
    case Str(value) => P.PyString(Kept(CStr(value)))
    case Int(number) => if number < 0 then P.PySymbol(Decimal(number)) else P.PyInt(number)
  }

  function ClientItems(e: SExp): seq<P.PyValue>
    requires e.Pair?
    decreases e, 0
  {
    [ClientValue(e.car)]
    + if e.cdr.Nil? then [] else if e.cdr.Pair? then ClientItems(e.cdr) else [ClientValue(e.cdr)]
  }

  /** Symbols the client knows to be symbols: printed without bars, and starting
      with neither a digit nor a period. */
  predicate ClientSymbols(e: SExp) {
    match e
    case Pair(car, cdr) => ClientSymbols(car) && ClientSymbols(cdr)
    case Symbol(name) => name != "" && !NeedsQuoting(name) && !IsDigit(name[0]) && name[0] != '.'
    case Nil => true
    case Str(_) => true
    case Int(_) => true
  }

  /** A token ends here for the client. */
  predicate EndsClientToken(s: string) {
    s == "" || !(IsSymbolChar(s[0]) || s[0] == '\\')
  }

  lemma {:induction false} SymbolScans(name: string, rest: string)
    requires forall k :: 0 <= k < |name| ==> IsSymbolChar(name[k])
    requires EndsClientToken(rest)
    ensures P.ScanSymbol(name + rest) == Some((name, rest)) && P.Unescape(name) == Some(name)
  {
    if name == "" {
      Neutral(rest);
    } else {
      SymbolScans(name[1..], rest);
      AppendTail(name, rest);
      HeadTail(name);
      OneFirst(name[0], name[1..]);
      assert (name + rest)[..1] == [name[0]];
    }
  }

  lemma {:induction false} DigitsScan(digits: string, rest: string)
    requires AllDigits(digits) && (rest == "" || !IsDigit(rest[0]))
    ensures P.ScanDigits(digits + rest) == (digits, rest)
  {
    if digits == "" {
      Neutral(rest);
    } else {
      DigitsScan(digits[1..], rest);
      AppendTail(digits, rest);
      HeadTail(digits);
      assert (digits + rest)[..1] == [digits[0]];
    }
  }

  lemma SymbolReads(name: string, rest: string)
    requires name != "" && !IsDigit(name[0]) && EndsClientToken(rest)
    requires forall k :: 0 <= k < |name| ==> IsSymbolChar(name[k])
    ensures P.Read(name + rest) == P.Parsed(P.PySymbol(name), rest)
  {
    SymbolScans(name, rest);
    AppendTail(name, rest);
    hide P.ScanSymbol, P.Unescape;
  }

  /** By itself, a symbol is read back exactly if the server prints it without bars and
      it does not start with a digit. */
  lemma SymbolReadsExactly(name: cstring, rest: string)
    requires EndsClientToken(rest)
    ensures P.Read(Repr(Symbol(name)) + rest) == P.Parsed(P.PySymbol(name), rest)
       <==> !NeedsQuoting(name) && !IsDigit(name[0])
  {
    if NeedsQuoting(name) {
      assert (Repr(Symbol(name)) + rest)[0] == '|';
    } else if IsDigit(name[0]) {
      AppendTail(name, rest);
    } else {
      SymbolReads(name, rest);
    }
  }

  lemma IntReads(n: int32, rest: string)
    requires EndsClientToken(rest)
    ensures P.Read(Decimal(n) + rest) == P.Parsed(ClientValue(Int(n)), rest)
  {
    if n < 0 {
      var name := Decimal(n);
      assert forall k :: 0 <= k < |name| ==> IsSymbolChar(name[k]);
      hide Decimal;
      SymbolReads(name, rest);
    } else {
      var digits := Digits(n);
      hide Digits;
      DigitsScan(digits, rest);
      DigitsRoundTrip(n);
      AppendTail(digits, rest);
    }
  }

  lemma AtomReads(e: SExp, rest: string)
    requires !e.Pair? && ClientSymbols(e) && EndsClientToken(rest)
    ensures P.Read(Repr(e) + rest) == P.Parsed(ClientValue(e), rest)
  {
    match e
    case Nil => SymbolReads("nil", rest);
    case Symbol(name) => SymbolReads(name, rest);
    case Str(value) => ClientReadsString(value, rest);
    case Int(number) => IntReads(number, rest);
  }

  /** What an element of a list starts with. */
  lemma ElementStarts(e: SExp)
    requires ClientSymbols(e)
    ensures Repr(e) != "" && Repr(e)[0] != ' ' && Repr(e)[0] != ')' && Repr(e)[0] != '.'
  {
    match e
    case Nil =>
    case Pair(_, _) =>
    case Symbol(name) =>
    case Str(value) =>
    case Int(number) => assert number >= 0 ==> IsDigit(Digits(number)[0]);
  }

  lemma BlankSkipped(s: string, elements: seq<P.PyValue>)
    ensures P.ReadElements(" " + s, elements) == P.ReadElements(s, elements)
  {
    OneFirst(' ', s);
  }

  lemma DotSkipped(s: string, elements: seq<P.PyValue>)
    ensures P.ReadElements(" . " + s, elements) == P.ReadElements(s, elements)
  {
    OneFirst(' ', "." + (" " + s));
    assert " . " + s == " " + ("." + (" " + s));
    OneFirst('.', " " + s);
    BlankSkipped("." + (" " + s), elements);
    BlankSkipped(s, elements);
  }

  lemma OneElement(e: SExp, rest: string, elements: seq<P.PyValue>)
    requires ClientSymbols(e) && P.Read(Repr(e) + rest) == P.Parsed(ClientValue(e), rest)
    ensures P.ReadElements(Repr(e) + rest, elements) == P.ReadElements(rest, elements + [ClientValue(e)])
  {
    hide P.Read, Repr, ClientValue;
    ElementStarts(e);
    AppendTail(Repr(e), rest);
  }

  lemma ListReads(inside: string, rest: string)
    ensures P.Read("(" + inside + ")" + rest) == P.ReadElements(inside + (")" + rest), [])
  {
    hide P.ReadElements;
    assert "(" + inside + ")" + rest == "(" + (inside + (")" + rest));
    OneFirst('(', inside + (")" + rest));
  }

  lemma ListCloses(rest: string, elements: seq<P.PyValue>)
    ensures P.ReadElements(")" + rest, elements) == P.Parsed(P.PyList(elements), rest)
  {
    OneFirst(')', rest);
  }

  /** Every tree whose symbols the client knows: whatever the server prints, in front of
      anything that ends a token, is read as the tree's value, and nothing else is read. */
  lemma {:induction false} PrintThenClientReads(e: SExp, rest: string)
    requires ClientSymbols(e) && EndsClientToken(rest)
    ensures P.Read(Repr(e) + rest) == P.Parsed(ClientValue(e), rest)
    decreases e, 1
  {
    hide P.Read;
    if e.Pair? {
      ItemsRead(e, [], rest);
      ListReads(ReprWithoutParens(e), rest);
      Neutral(ClientItems(e));
    } else {
      AtomReads(e, rest);
    }
  }

  lemma {:induction false} ItemsRead(e: SExp, elements: seq<P.PyValue>, rest: string)
    requires e.Pair? && ClientSymbols(e)
    ensures P.ReadElements(ReprWithoutParens(e) + (")" + rest), elements) == P.Parsed(P.PyList(elements + ClientItems(e)), rest)
    decreases e, 0
  {
    hide P.Read, P.ReadElements, Repr;
    var close, v, here := ")" + rest, ClientValue(e.car), elements + [ClientValue(e.car)];
    var tail := if e.cdr.Nil? then "" else if e.cdr.Pair? then " " + ReprWithoutParens(e.cdr) else " . " + Repr(e.cdr);
    Associative(Repr(e.car), tail, close);
    PrintThenClientReads(e.car, tail + close);
    OneElement(e.car, tail + close, elements);
    if e.cdr.Nil? {
      Neutral(close);
      ListCloses(rest, here);
      assert elements + ClientItems(e) == here;
    } else if e.cdr.Pair? {
      Associative(" ", ReprWithoutParens(e.cdr), close);
      BlankSkipped(ReprWithoutParens(e.cdr) + close, here);
      ItemsRead(e.cdr, here, rest);
      Associative(elements, [v], ClientItems(e.cdr));
    } else {
      Associative(" . ", Repr(e.cdr), close);
      DotSkipped(Repr(e.cdr) + close, here);
      PrintThenClientReads(e.cdr, close);
      OneElement(e.cdr, close, here);
      ListCloses(rest, here + [ClientValue(e.cdr)]);
      Associative(elements, [v], [ClientValue(e.cdr)]);
    }
  }
}
