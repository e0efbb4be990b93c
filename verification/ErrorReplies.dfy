/** The reply that carries a failure (gtagsmixer.cc:80-84, mixerrequesthandler.cc:108-144):
    the message stands between quotes as it is, nothing in it is escaped. */
module ErrorReplies {
  import opened CStrings
  import opened Sequences
  import opened SExpressions
  import opened RoundTrip
  import opened Framing
  import opened Mixing
  import opened Joining

  const ERROR: cstring := "error"
  const MESSAGE: cstring := "message"

  /** ((error ((message "...")))) */
  function ErrorTree(message: cstring): SExp {
    Pair(EntryTree(ERROR, Pair(EntryTree(MESSAGE, Str(message)), Nil)), Nil)
  }

  /** Nothing in the message ends or alters a string between quotes. */
  predicate Literal(message: string) {
    '"' !in message && '\\' !in message && NUL !in message
  }

  /** The reply is read as the message, with nothing left over. */
  predicate ReadWhole(message: string) {
    NUL !in message && ReadSexp(ErrorText(message)) == Ok(ErrorTree(message), "")
  }

  lemma {:induction false} LiteralRead(message: cstring, rest: string)
    requires Literal(message)
    ensures ReadDelimited('"', message + ("\"" + rest)) == Ok(message, rest)
  {
    var s := message + ("\"" + rest);
    if message == "" {
      assert s[0] == '"' && s[1..] == rest;
    } else {
      LiteralRead(message[1..], rest);
      assert s[0] == message[0] && s[1..] == message[1..] + ("\"" + rest);
      HeadTail(message);
    }
  }

  /** A quote ends the string too early, and what a backslash takes literally lags behind
      the message from there on. */
  lemma {:induction false} AlteredRead(message: cstring, rest: string)
    requires !Literal(message)
    ensures var r := ReadDelimited('"', message + ("\"" + rest)); r.Ok? ==> r.value != message
  {
    hide ReadDelimited;
    var quote := "\"" + rest;
    AppendTail(message, quote);
    FirstRead(message + quote);
    if message[0] == '\\' {
      LagsBehind("", message, rest);
      Neutral(message);
    } else if message[0] != '"' {
      HeadTail(message);
      assert !Literal(message[1..]);
      AlteredRead(message[1..], rest);
    }
  }

  /** How the text read begins. */
  lemma FirstRead(s: string)
    requires s != ""
    ensures var r := ReadDelimited('"', s);
      r.Ok? ==>
        if s[0] == '"' then r.value == ""
        else if s[0] == '\\' then
          |s| > 1 && r.value != "" && r.value[0] == s[1]
          && ReadDelimited('"', s[2..]).Ok? && r.value[1..] == ReadDelimited('"', s[2..]).value
        else
          r.value != "" && r.value[0] == s[0]
          && ReadDelimited('"', s[1..]).Ok? && r.value[1..] == ReadDelimited('"', s[1..]).value
  {
  }

  /** What is read where a backslash stands is never the message itself, nor backslashes
      and the message. */
  lemma {:induction false} LagsBehind(lag: cstring, message: cstring, rest: string)
    requires forall k :: 0 <= k < |lag| ==> lag[k] == '\\'
    requires lag != "" || (message != "" && message[0] == '\\')
    ensures var r := ReadDelimited('"', message + ("\"" + rest)); r.Ok? ==> r.value != lag + message
    decreases |message|
  {
    hide ReadDelimited;
    var s := message + ("\"" + rest);
    FirstRead(s);
    var r := ReadDelimited('"', s);
    if message == "" {
      assert s[0] == '"';
    } else {
      assert s[0] == message[0];
      assert (lag + message)[0] == if lag == "" then message[0] else '\\';
      if message[0] == '\\' {
        assert s[1] == if |message| == 1 then '"' else message[1];
        if |message| > 1 && message[1] == '\\' {
          LagsBehind(lag + "\\", message[2..], rest);
          TwoLess(lag, message, "\"" + rest);
        }
      }
    }
  }

  lemma TwoLess(lag: string, message: string, quote: string)
    requires |message| > 1 && message[0] == message[1] == '\\' && forall k :: 0 <= k < |lag| ==> lag[k] == '\\'
    ensures (message + quote)[2..] == message[2..] + quote
    ensures (lag + message)[1..] == lag + "\\" + message[2..]
  {
  }

  // ----- Around the message

  /** What is read at the head of a list shows in the list. */
  lemma HeadShows(x: string, e: SExp)
    requires Starts(x) && !Reads(ReadSexp(x), e)
    ensures !Reads(ReadSexp("(" + x), Pair(e, Nil))
  {
    hide ReadSexp, ReadItems;
    Opened(x);
    ItemOf(x, []);
    if ReadSexp(x).Ok? {
      assert [] + [ReadSexp(x).value] == [ReadSexp(x).value];
      NotTheReply(SkipSpace(ReadSexp(x).rest), ReadSexp(x).value, e);
    }
  }

  /** What is read behind a key shows in the entry. */
  lemma EntryShows(key: cstring, x: string, e: SExp)
    requires Key(key) && Starts(x) && !Reads(ReadSexp(x), e) && !Reads(ReadSexp(x), Pair(e, Nil))
    ensures !Reads(ReadSexp("(" + (key + (" " + x))), EntryTree(key, e))
    ensures forall f :: f != Symbol(key) ==> !Reads(ReadSexp("(" + (key + (" " + x))), Pair(f, Nil))
  {
    hide ReadSexp, ReadItems, Key;
    KeyIsRead(key, x);
    ItemOf(x, [Symbol(key)]);
    ChainOfTwo(Symbol(key), e);
    if ReadSexp(x).Ok? {
      NotTheEntry(SkipSpace(ReadSexp(x).rest), Symbol(key), ReadSexp(x).value, e);
    }
    forall f | f != Symbol(key)
      ensures !Reads(ReadItems(x, [Symbol(key)], false), Pair(f, Nil))
    {
      NotTheReply(x, Symbol(key), f);
    }
  }

  lemma ErrorKeys()
    ensures Key(ERROR) && Key(MESSAGE)
  {
    LowerKey(ERROR);
    LowerKey(MESSAGE);
  }

  function QuotedBefore(message: string, rest: string): string {
    "\"" + (message + ("\"" + rest))
  }

  lemma ErrorShape(message: string)
    ensures ErrorText(message)
         == "(" + ("(" + (ERROR + (" " + ("(" + ("(" + (MESSAGE + (" " + QuotedBefore(message, "))))"))))))))
  {
  }

  lemma QuotedIsRead(message: string, rest: string)
    ensures ReadSexp(QuotedBefore(message, rest)) == ToStr(ReadDelimited('"', message + ("\"" + rest)))
  {
    ConsTail('"', message + ("\"" + rest));
  }

  lemma LiteralDenotes(message: cstring)
    requires Literal(message)
    ensures DenotesAnywhere("\"" + message + "\"", Str(message))
  {
    forall suffix: string
      ensures ReadSexp("\"" + message + "\"" + suffix) == Ok(Str(message), suffix)
    {
      assert "\"" + message + "\"" + suffix == QuotedBefore(message, suffix);
      QuotedIsRead(message, suffix);
      LiteralRead(message, suffix);
    }
  }

  lemma LiteralReply(message: cstring)
    requires Literal(message)
    ensures ReadSexp(ErrorText(message)) == Ok(ErrorTree(message), "")
  {
    hide Denotes, DenotesAnywhere, Key, Literal, EntryTree;
    ErrorKeys();
    var quoted := "\"" + message + "\"";
    LiteralDenotes(message);
    OneEntry(MESSAGE, quoted, Str(message));
    var list := "(" + Entry(MESSAGE, quoted) + ")";
    OneEntry(ERROR, list, Pair(EntryTree(MESSAGE, Str(message)), Nil));
    ErrorEntries(message);
    WholeText(ErrorText(message), ErrorTree(message));
  }

  lemma ErrorEntries(message: string)
    ensures ErrorText(message) == "(" + Entry(ERROR, "(" + Entry(MESSAGE, "\"" + message + "\"") + ")") + ")"
  {
  }

  lemma WholeText(x: string, e: SExp)
    requires DenotesAnywhere(x, e)
    ensures ReadSexp(x) == Ok(e, "")
  {
    assert x + "" == x;
  }

  /** ((key x)) */
  lemma OneEntry(key: cstring, x: string, e: SExp)
    requires Key(key) && DenotesAnywhere(x, e)
    ensures DenotesAnywhere("(" + Entry(key, x) + ")", Pair(EntryTree(key, e), Nil))
  {
    hide Denotes, DenotesAnywhere, Key;
    AnywhereDenotes(x, e);
    EntryDenotes(key, x, e);
    AnywhereDenotes(Entry(key, x), EntryTree(key, e));
    var trees: seq<SExp> := [EntryTree(key, e)];
    SpacedList([Entry(key, x)], trees);
    assert Spaced([Entry(key, x)]) == Entry(key, x);
    assert trees[1..] == [] && Chain(trees, Nil) == Pair(trees[0], Chain(trees[1..], Nil));
  }

  lemma AlteredReply(message: cstring)
    requires !Literal(message)
    ensures !Reads(ReadSexp(ErrorText(message)), ErrorTree(message))
  {
    hide ReadSexp, Key, Literal, EntryTree, QuotedBefore;
    ErrorKeys();
    var quoted := QuotedBefore(message, "))))");
    var inner := "(" + (MESSAGE + (" " + quoted));
    var list := "(" + inner;
    var outer := "(" + (ERROR + (" " + list));
    var entry := EntryTree(MESSAGE, Str(message));
    ErrorShape(message);
    QuotedIsRead(message, "))))");
    AlteredRead(message, "))))");
    QuotedStarts(message);
    EntryShows(MESSAGE, quoted, Str(message));
    EntryTreeShape(MESSAGE, Str(message));
    HeadShows(inner, entry);
    HeadShows(inner, Pair(entry, Nil));
    EntryShows(ERROR, list, Pair(entry, Nil));
    HeadShows(outer, EntryTree(ERROR, Pair(entry, Nil)));
  }

  lemma QuotedStarts(message: string)
    ensures Starts(QuotedBefore(message, "))))"))
  {
  }

  /** The law of the failure's reply: it is read as the message if and only if that holds
      no quote, no backslash and no NUL. */
  lemma ErrorReplyExactly(message: string)
    ensures ReadWhole(message) <==> Literal(message)
  {
    hide ReadSexp, ErrorText, ErrorTree;
    if Literal(message) { LiteralReply(message); } else if NUL !in message { AlteredReply(message); }
  }

  /** The printer leaves these characters alone. */
  predicate Unescaped(message: string) {
    forall k :: 0 <= k < |message| ==> message[k] != NUL && CEscapeChar(message[k]) == [message[k]]
  }

  lemma UnescapedPieces(a: string, b: string)
    requires Unescaped(a) && Unescaped(b)
    ensures Unescaped(a + b)
  {
  }

  lemma UnescapedIsLiteral(message: string)
    requires Unescaped(message)
    ensures Literal(message)
  {
  }

  lemma {:induction false} UnescapedText(message: cstring)
    requires Unescaped(message)
    ensures CEscapeAll(message) == message
  {
    if message != "" {
      UnescapedText(message[1..]);
      HeadTail(message);
    }
  }

  /** Such a message makes the reply what the printer would have made of its tree. */
  lemma UnescapedReply(message: cstring)
    requires Unescaped(message)
    ensures ErrorText(message) == Repr(ErrorTree(message))
  {
    UnescapedText(message);
    ErrorKeys();
    ErrorEntries(message);
    EntryIsPrinted(MESSAGE, Str(message));
    EntryIsPrinted(ERROR, Pair(EntryTree(MESSAGE, Str(message)), Nil));
  }

  lemma EntryIsPrinted(key: cstring, e: SExp)
    requires Key(key)
    ensures Repr(EntryTree(key, e)) == Entry(key, Repr(e))
    ensures Repr(Pair(EntryTree(key, e), Nil)) == "(" + Entry(key, Repr(e)) + ")"
  {
    hide Repr;
    ChainOfTwo(Symbol(key), e);
    KeyThenPrinted(key, e);
    assert "(" + (key + (" " + Repr(e))) + ")" == Entry(key, Repr(e));
    OnePrinted(EntryTree(key, e));
  }

  lemma KeyThenPrinted(key: cstring, e: SExp)
    requires Key(key)
    ensures Repr(Pair(Symbol(key), Pair(e, Nil))) == "(" + (key + (" " + Repr(e))) + ")"
  {
    var behind := Pair(e, Nil);
    Neutral(Repr(e));
    assert ReprWithoutParens(behind) == Repr(e);
    assert ReprWithoutParens(Pair(Symbol(key), behind)) == key + (" " + ReprWithoutParens(behind));
  }

  lemma OnePrinted(e: SExp)
    ensures Repr(Pair(e, Nil)) == "(" + Repr(e) + ")"
  {
    Neutral(Repr(e));
    assert ReprWithoutParens(Pair(e, Nil)) == Repr(e);
  }

  /** What is put together from pieces is literal exactly if all of them are. */
  lemma LiteralPieces(a: string, b: string)
    ensures Literal(a + b) <==> Literal(a) && Literal(b)
  {
  }
}
