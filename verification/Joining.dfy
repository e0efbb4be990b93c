/** When the joined elements of a mixed reply come apart again (gtagsmixer.cc:97-108):
    JoinResults puts nothing between them, so that each must show where it ends,
    except the last, which the closing parenthesis ends. */
module Joining {
  import opened CStrings
  import opened Sequences
  import opened Numerals
  import opened SExpressions
  import opened RoundTrip
  import opened Framing
  import opened Mixing

  predicate ReadableAll(es: seq<SExp>) {
    forall k :: 0 <= k < |es| ==> Readable(es[k], true)
  }

  /** What each element is read back as, by itself. */
  function ReadBackAll(es: seq<SExp>): (r: seq<SExp>)
    requires ReadableAll(es)
    ensures |r| == |es|
    ensures forall k :: 0 <= k < |r| ==> r[k] == ReadBack(es[k], true)
  {
    if es == [] then [] else [ReadBack(es[0], true)] + ReadBackAll(es[1..])
  }

  /** Every element but the last shows where it ends. */
  predicate Separable(es: seq<SExp>) {
    forall k :: 0 <= k < |es| - 1 ==> SelfDelimiting(es[k])
  }

  /** What follows the first of the joined elements. */
  function Behind(es: seq<SExp>, suffix: string): string
    requires es != []
  {
    All(Reprs(es[1..])) + (")" + suffix)
  }

  lemma JoinedFirst(es: seq<SExp>, suffix: string)
    requires es != []
    ensures All(Reprs(es)) + (")" + suffix) == Repr(es[0]) + Behind(es, suffix)
  {
    ConsTail(Repr(es[0]), Reprs(es[1..]));
    Associative(Repr(es[0]), All(Reprs(es[1..])), ")" + suffix);
  }

  /** The joined text begins with an element or with the closing parenthesis. */
  lemma JoinedStart(es: seq<SExp>, suffix: string)
    ensures var s := All(Reprs(es)) + (")" + suffix);
      s != "" && SkipSpace(s) == s && s[0] == if es == [] then ')' else Repr(es[0])[0]
  {
    if es != [] {
      JoinedFirst(es, suffix);
      ReprStart(es[0], Behind(es, suffix));
    }
  }

  /** One element of the joined text is read by itself; what the reader makes of it is
      then followed by the rest. */
  lemma ElementStep(es: seq<SExp>, suffix: string, items: seq<SExp>)
    requires es != []
    ensures var s, item := All(Reprs(es)) + (")" + suffix), ReadItem(Repr(es[0]) + Behind(es, suffix));
      && !(Peek(s) == ')') && !AtDot(s)
      && (item.Ok? ==> ReadItems(s, items, false) == ReadItems(SkipSpace(item.rest), items + [item.value], false))
      && (!item.Ok? ==> !ReadItems(s, items, false).Ok?)
  {
    JoinedFirst(es, suffix);
    FirstChar(es[0]);
    ReprStart(es[0], Behind(es, suffix));
    hide ReadItem, Repr;
  }

  /** Separable elements come apart. */
  lemma {:induction false} SeparableItems(es: seq<SExp>, suffix: string, items: seq<SExp>)
    requires ReadableAll(es) && Separable(es)
    ensures ReadItems(All(Reprs(es)) + (")" + suffix), items, false) == Ok(Chain(items + ReadBackAll(es), Nil), suffix)
    decreases |es|
  {
    hide ReadItems, ReadItem, Repr, Chain, ReadBack, Readable, SelfDelimiting;
    if es == [] {
      Neutral(items);
      Neutral(")" + suffix);
      CloseRead(suffix, items);
    } else {
      if |es| == 1 { Neutral(")" + suffix); }
      assert EndsToken(Behind(es, suffix)) || SelfDelimiting(es[0]);
      ReadOne(es[0], Behind(es, suffix));
      ElementStep(es, suffix, items);
      JoinedStart(es[1..], suffix);
      SeparableItems(es[1..], suffix, items + [ReadBack(es[0], true)]);
      Associative(items, [ReadBack(es[0], true)], ReadBackAll(es[1..]));
    }
  }

  lemma ReadOne(e: SExp, left: string)
    requires Readable(e, true) && (EndsToken(left) || SelfDelimiting(e))
    ensures ReadItem(Repr(e) + left) == Ok(ReadBack(e, true), left)
  {
    PrintThenRead(e, left, true);
  }

  // ----- A bare element swallows what follows it

  /** The token that a bare element is printed as, in a list. */
  function TokenOf(e: SExp): (t: cstring)
    requires !SelfDelimiting(e)
  {
    BareIsClean(e);
    if e.Symbol? && LosesPeriod(e.name, true) then e.name[1..] else Repr(e)
  }

  lemma BareIsClean(e: SExp)
    requires !SelfDelimiting(e)
    ensures Plain(Repr(e)) && Repr(e) != ""
  {
    match e
    case Nil =>
    case Int(number) => DecimalIsPlain(number);
    case Symbol(name) => BareSymbolIsPlain(name);
  }

  /** How a bare element is read in front of anything: by the token that begins there. */
  lemma BareRead(e: SExp, left: string)
    requires Readable(e, true) && !SelfDelimiting(e)
    ensures TokenOf(e) != "" && Plain(TokenOf(e))
    ensures ReadItem(Repr(e) + left) == ReadToken(TokenOf(e) + left)
    ensures Classify(TokenOf(e), false, "") == Ok(ReadBack(e, true), "")
  {
    BareIsClean(e);
    FirstChar(e);
    var t := TokenOf(e);
    if e.Symbol? && LosesPeriod(e.name, true) {
      BareSymbolFirst(e.name);
      AppendTail(e.name, left);
    }
    BareTokenStarts(e);
    AppendTail(t, left);
    assert SkipSpace(t + left) == t + left;
    BareClassified(e);
  }

  lemma BareTokenStarts(e: SExp)
    requires !SelfDelimiting(e)
    ensures var t := TokenOf(e); t != "" && Plain(t) && IsSymbolChar(t[0])
  {
    BareIsClean(e);
    match e
    case Nil =>
    case Int(number) => assert number >= 0 ==> IsDigit(Digits(number)[0]);
    case Symbol(name) =>
      if LosesPeriod(name, true) { BareSymbolFirst(name); }
  }

  lemma BareClassified(e: SExp)
    requires Readable(e, true) && !SelfDelimiting(e) && TokenOf(e) != ""
    ensures Classify(TokenOf(e), false, "") == Ok(ReadBack(e, true), "")
  {
    BareIsClean(e);
    match e
    case Nil => assert !IsDigit("nil"[0]);
    case Int(number) => DecimalRoundTrip(number);
    case Symbol(name) =>
  }

  /** A longer token stands for something else, unless all that it has gained are digits. */
  lemma LongerToken(t: cstring, more: cstring, escaped: bool, rest: string)
    requires t != "" && more != "" && Classify(t, false, "").Ok?
    requires Classify(t + more, escaped, rest).Ok?
    requires Classify(t + more, escaped, rest).value == Classify(t, false, "").value
    ensures !escaped && AllDigits(more)
  {
    var long: cstring := t + more;
    assert |long| > |t| && long[..|t|] == t && long[|t|..] == more;
    if !escaped && IntToken(long) {
      var u := Unsigned(long);
      assert AllDigits(u);
      forall k | 0 <= k < |more|
        ensures IsDigit(more[k])
      {
        assert more[k] == long[|t| + k];
        assert more[k] == if Peek(long) == '-' then u[|t| + k - 1] else u[|t| + k];
      }
    }
  }

  /** If the digits that a token gained come from printed elements, they go up to the
      closing parenthesis: no element that begins with a digit ends a token. */
  lemma {:induction false} DigitsToTheEnd(es: seq<SExp>, suffix: string)
    requires var r := ScanToken(All(Reprs(es)) + (")" + suffix)); r.Token? && !r.escaped && AllDigits(r.text)
    ensures ScanToken(All(Reprs(es)) + (")" + suffix)).rest == ")" + suffix
    decreases |es|
  {
    hide Repr;
    var s := All(Reprs(es)) + (")" + suffix);
    if es == [] {
      Neutral(")" + suffix);
    } else {
      JoinedFirst(es, suffix);
      FirstChar(es[0]);
      AppendTail(Repr(es[0]), Behind(es, suffix));
      NoBackslashFirst(es[0]);
      assert ScanToken(s).text[0] == Repr(es[0])[0];
      DigitFirst(es[0]);
      PlainBefore(Repr(es[0]), Behind(es, suffix));
      var r := ScanToken(Behind(es, suffix));
      assert ScanToken(s).text[|Repr(es[0])|..] == r.text;
      DigitsToTheEnd(es[1..], suffix);
    }
  }

  lemma NoBackslashFirst(e: SExp)
    ensures Repr(e) != "" && Repr(e)[0] != '\\'
  {
    FirstChar(e);
    if !SelfDelimiting(e) { BareIsClean(e); }
  }

  lemma DigitFirst(e: SExp)
    requires Repr(e) != "" && IsDigit(Repr(e)[0])
    ensures Plain(Repr(e)) && NUL !in Repr(e)
  {
    FirstChar(e);
    BareIsClean(e);
  }

  /** Whatever the reader makes of a bare element in front of another one: it is not that
      element, or it is the last thing the list holds. */
  lemma BareSwallows(es: seq<SExp>, suffix: string)
    requires ReadableAll(es) && |es| > 1 && !SelfDelimiting(es[0])
    ensures var item := ReadItem(Repr(es[0]) + Behind(es, suffix));
      item.Ok? ==> !item.value.Pair? && (item.value == ReadBack(es[0], true) ==> item.rest == ")" + suffix)
  {
    hide Repr, Readable, ReadBack, SelfDelimiting, Classify, ReadItem;
    var t, left := TokenOf(es[0]), Behind(es, suffix);
    BareRead(es[0], left);
    PlainBefore(t, left);
    JoinedStart(es[1..], suffix);
    FirstChar(es[1]);
    NoBackslashFirst(es[1]);
    var r := ScanToken(left);
    if r.Token? {
      assert r.text != "";
      var item := ReadItem(Repr(es[0]) + left);
      assert item == Classify(t + r.text, r.escaped, r.rest);
      if item.Ok? && item.value == ReadBack(es[0], true) {
        LongerToken(t, r.text, r.escaped, r.rest);
        DigitsToTheEnd(es[1..], suffix);
        ClassifiedRest(t + r.text, r.escaped, r.rest);
      }
      if item.Ok? { ClassifiedRest(t + r.text, r.escaped, r.rest); }
    }
  }

  lemma ClassifiedRest(t: cstring, escaped: bool, rest: string)
    requires t != "" && Classify(t, escaped, rest).Ok?
    ensures Classify(t, escaped, rest).rest == rest && !Classify(t, escaped, rest).value.Pair?
  {
  }

  /** Elements that are not separable do not come apart, whatever closes the list. */
  lemma {:induction false} InseparableItems(es: seq<SExp>, suffix: string, items: seq<SExp>)
    requires ReadableAll(es) && !Separable(es)
    ensures !Reads(ReadItems(All(Reprs(es)) + (")" + suffix), items, false), Chain(items, Chain(ReadBackAll(es), Nil)))
    decreases |es|
  {
    hide ReadItems, ReadItem, Repr, ReadBack, Readable, SelfDelimiting;
    var x, rest := ReadBack(es[0], true), Chain(ReadBackAll(es[1..]), Nil);
    ElementStep(es, suffix, items);
    assert Chain(ReadBackAll(es), Nil) == Pair(x, rest);
    if SelfDelimiting(es[0]) {
      ReadOne(es[0], Behind(es, suffix));
      JoinedStart(es[1..], suffix);
      InseparableItems(es[1..], suffix, items + [x]);
      ChainAppend(items, x, rest);
    } else {
      BareSwallows(es, suffix);
      var item := ReadItem(Repr(es[0]) + Behind(es, suffix));
      if item.Ok? { SwallowedIsLost(es, suffix, items, item, x, rest); }
    }
  }

  lemma SwallowedIsLost(es: seq<SExp>, suffix: string, items: seq<SExp>, item: Reading<SExp>, x: SExp, rest: SExp)
    requires item.Ok? && !item.value.Pair? && (item.value == x ==> item.rest == ")" + suffix) && rest.Pair?
    ensures !Reads(ReadItems(SkipSpace(item.rest), items + [item.value], false), Chain(items, Pair(x, rest)))
  {
    hide ReadItems;
    var r := ReadItems(SkipSpace(item.rest), items + [item.value], false);
    if Reads(r, Chain(items, Pair(x, rest))) {
      var more, improper := ItemsAreKept(SkipSpace(item.rest), items + [item.value], false);
      BuiltBehind(items, item.value, more, improper, Pair(x, rest));
      assert item.value == x;
      CloseRead(suffix, items + [x]);
      ChainAppend(items, x, Nil);
      ChainInjective(items, Pair(x, Nil), Pair(x, rest));
      assert false;
    }
  }

  // ----- The whole reply

  /** ((value (elements...))), as text */
  function ReplyOf(es: seq<SExp>): string {
    "((value " + JoinedText(es) + "))"
  }

  lemma ReplyShape(es: seq<SExp>)
    ensures var list := "(" + (All(Reprs(es)) + (")" + "))"));
      ReplyOf(es) == "(" + ("(" + ("value" + (" " + list)))
  {
  }

  lemma Opened(inside: string)
    requires SkipSpace(inside) == inside
    ensures ReadSexp("(" + inside) == ReadItems(inside, [], false)
  {
    hide ReadItems;
    ConsTail('(', inside);
  }

  /** The list of elements, where the reply has it. */
  function ListRead(es: seq<SExp>): Reading<SExp> {
    ReadItems(All(Reprs(es)) + (")" + "))"), [], false)
  }

  /** The entry with the key. */
  function EntryRead(es: seq<SExp>): Reading<SExp> {
    if ListRead(es).Ok? then ReadItems(SkipSpace(ListRead(es).rest), [Symbol("value"), ListRead(es).value], false)
    else ListRead(es)
  }

  lemma EntryIsRead(es: seq<SExp>)
    ensures var text := "(" + ("value" + (" " + ("(" + (All(Reprs(es)) + (")" + "))")))));
      && (EntryRead(es).Ok? ==> ReadSexp(text) == EntryRead(es))
      && (!EntryRead(es).Ok? ==> !ReadSexp(text).Ok?)
  {
    hide ReadSexp, ReadItems, Repr, SkipSpace;
    var joined := All(Reprs(es)) + (")" + "))");
    ValueIsKey();
    assert ("(" + joined)[0] == '(';
    KeyIsRead("value", "(" + joined);
    JoinedStart(es, "))");
    Opened(joined);
    ConsTail('(', joined);
    ItemOf("(" + joined, [Symbol("value")]);
    if ListRead(es).Ok? { assert [Symbol("value")] + [ListRead(es).value] == [Symbol("value"), ListRead(es).value]; }
  }

  /** A list goes on behind its key. */
  lemma KeyIsRead(key: cstring, x: string)
    requires Key(key) && Starts(x)
    ensures ReadSexp("(" + (key + (" " + x))) == ReadItems(x, [Symbol(key)], false)
  {
    hide ReadSexp, ReadItems, Key;
    KeyDenotes(key);
    var inside := key + (" " + x);
    assert inside[0] == key[0];
    Opened(inside);
    ConsTail(' ', x);
    assert EndsToken(" " + x);
    ItemOf(inside, []);
    assert SkipSpace(" " + x) == x;
    assert [] + [Symbol(key)] == [Symbol(key)];
  }

  /** A list goes on behind what is read at its head. */
  lemma ItemOf(s: string, items: seq<SExp>)
    requires s != "" && s[0] != ')' && s[0] != '.'
    ensures ReadSexp(s).Ok? ==> ReadItems(s, items, false) == ReadItems(SkipSpace(ReadSexp(s).rest), items + [ReadSexp(s).value], false)
    ensures !ReadSexp(s).Ok? ==> !ReadItems(s, items, false).Ok?
  {
    hide ReadSexp;
  }

  lemma ReplyIsRead(es: seq<SExp>)
    ensures ReadSexp(ReplyOf(es)).Ok? ==> EntryRead(es).Ok?
    ensures EntryRead(es).Ok? ==>
      ReadSexp(ReplyOf(es)) == ReadItems(SkipSpace(EntryRead(es).rest), [EntryRead(es).value], false)
  {
    hide ReadSexp, ReadItems, EntryRead, All, Reprs, JoinedText;
    var text := "(" + ("value" + (" " + ("(" + (All(Reprs(es)) + (")" + "))")))));
    ReplyShape(es);
    EntryIsRead(es);
    ConsTail('(', "value" + (" " + ("(" + (All(Reprs(es)) + (")" + "))")))));
    Opened(text);
    ItemOf(text, []);
    assert EntryRead(es).Ok? ==> [] + [EntryRead(es).value] == [EntryRead(es).value];
  }

  /** What a list is built of, once its first elements are known. */
  lemma FirstOfList(s: string, items: seq<SExp>, item: SExp, t: SExp)
    requires Reads(ReadItems(s, items + [item], false), Chain(items, t))
    ensures t == Pair(item, Nil) || (t.Pair? && t.car == item) || (items != [] && t == item)
  {
    var more, improper := ItemsAreKept(s, items + [item], false);
    BuiltBehind(items, item, more, improper, t);
    if items == [] && more == [] { assert [] + [item] + [] == [item]; }
  }

  lemma SeparableReply(es: seq<SExp>)
    requires ReadableAll(es) && Separable(es)
    ensures ReadSexp(ReplyOf(es)) == Ok(ValueReply(ReadBackAll(es)), "")
  {
    hide ReadSexp, ReadItems, EntryRead, ReplyOf, Separable, ReadableAll;
    var v := Chain(ReadBackAll(es), Nil);
    SeparableItems(es, "))", []);
    Neutral(ReadBackAll(es));
    assert SkipSpace("))") == "))" == ")" + ")";
    CloseRead(")", [Symbol("value"), v]);
    EntryOfList(es);
    ReplyIsRead(es);
    assert SkipSpace(")") == ")" == ")" + "";
    CloseRead("", [Chain([Symbol("value"), v], Nil)]);
  }

  lemma EntryOfList(es: seq<SExp>)
    ensures ListRead(es).Ok? ==> EntryRead(es) == ReadItems(SkipSpace(ListRead(es).rest), [Symbol("value"), ListRead(es).value], false)
    ensures EntryRead(es).Ok? ==> ListRead(es).Ok?
  {
  }

  /** The first element of the list is the first of the elements, or an atom. */
  lemma FirstIsNotTheList(es: seq<SExp>, v: SExp)
    requires ReadableAll(es) && es != [] && ListRead(es).Ok? && v == Chain(ReadBackAll(es), Nil)
    ensures ListRead(es).value != Pair(v, Nil)
  {
    hide ReadItems, ReadItem, Repr, Readable, ReadBack, SelfDelimiting;
    var suffix := "))";
    var item := ReadItem(Repr(es[0]) + Behind(es, suffix));
    ElementStep(es, suffix, []);
    if SelfDelimiting(es[0]) || |es| == 1 {
      if |es| == 1 { Neutral(")" + suffix); }
      ReadOne(es[0], Behind(es, suffix));
    } else {
      BareSwallows(es, suffix);
    }
    assert [] + [item.value] == [item.value];
    assert v == Pair(ReadBack(es[0], true), Chain(ReadBackAll(es[1..]), Nil));
    NotTheReply(SkipSpace(item.rest), item.value, v);
  }

  lemma ListIsLost(es: seq<SExp>, v: SExp)
    requires ReadableAll(es) && !Separable(es) && v == Chain(ReadBackAll(es), Nil)
    ensures !Reads(ListRead(es), v)
  {
    InseparableItems(es, "))", []);
  }

  lemma EntryIsLost(es: seq<SExp>, v: SExp)
    requires ReadableAll(es) && !Separable(es) && v == Chain(ReadBackAll(es), Nil)
    ensures !Reads(EntryRead(es), Pair(Symbol("value"), Pair(v, Nil)))
  {
    assert es != [];
    hide ReadItems, ListRead, Separable, ReadableAll;
    var key := Symbol("value");
    ListIsLost(es, v);
    if ListRead(es).Ok? {
      var list := ListRead(es).value;
      FirstIsNotTheList(es, v);
      assert [key] + [list] == [key, list];
      assert Chain([key], Pair(v, Nil)) == Pair(key, Pair(v, Nil));
      NotTheEntry(SkipSpace(ListRead(es).rest), key, list, v);
    }
  }

  lemma NotTheEntry(s: string, key: SExp, list: SExp, v: SExp)
    requires list != v && list != Pair(v, Nil)
    ensures !Reads(ReadItems(s, [key] + [list], false), Chain([key], Pair(v, Nil)))
  {
    hide ReadItems;
    if Reads(ReadItems(s, [key] + [list], false), Chain([key], Pair(v, Nil))) {
      FirstOfList(s, [key], list, Pair(v, Nil));
      assert false;
    }
  }

  lemma NotTheReply(s: string, entry: SExp, wanted: SExp)
    requires entry != wanted
    ensures !Reads(ReadItems(s, [entry], false), Pair(wanted, Nil))
  {
    hide ReadItems;
    assert [] + [entry] == [entry];
    if Reads(ReadItems(s, [entry], false), Pair(wanted, Nil)) {
      FirstOfList(s, [], entry, Pair(wanted, Nil));
      assert false;
    }
  }

  lemma ValueReplyShape(v: SExp)
    ensures Chain([Chain([Symbol("value"), v], Nil)], Nil) == Pair(Pair(Symbol("value"), Pair(v, Nil)), Nil)
  {
    ChainOfTwo(Symbol("value"), v);
  }

  lemma InseparableReply(es: seq<SExp>)
    requires ReadableAll(es) && !Separable(es)
    ensures !Reads(ReadSexp(ReplyOf(es)), ValueReply(ReadBackAll(es)))
  {
    hide ReadSexp, ReadItems, EntryRead, ListRead, ReplyOf, Separable, ReadableAll;
    var v := Chain(ReadBackAll(es), Nil);
    var wanted := Pair(Symbol("value"), Pair(v, Nil));
    ValueReplyShape(v);
    EntryIsLost(es, v);
    ReplyIsRead(es);
    if EntryRead(es).Ok? { NotTheReply(SkipSpace(EntryRead(es).rest), EntryRead(es).value, wanted); }
  }

  /** The elements of both sources, where they have a value list. */
  function BothElements(local: string, remote: string): seq<SExp> {
    Elements(FromReply(local)) + Elements(FromReply(remote))
  }

  /** The law of the joined reply: for readable elements, it is read as all of them by
      themselves, the local ones and then the remote ones, with nothing left over, if and
      only if every element but the last shows where it ends. */
  lemma MixedReply(local: string, remote: string, remoteFailure: string)
    requires var l, r := FromReply(local), FromReply(remote); !l.Crash? && !r.Crash? && (l.Values? || r.Values?)
    requires ReadableAll(BothElements(local, remote))
    ensures Mix(local, remote, remoteFailure).Some?
    ensures ReadSexp(Mix(local, remote, remoteFailure).value) == Ok(ValueReply(ReadBackAll(BothElements(local, remote))), "")
       <==> Separable(BothElements(local, remote))
  {
    hide FromReply, ReadableAll, Separable, ReadSexp, ValueReply;
    var es := BothElements(local, remote);
    assert Mix(local, remote, remoteFailure) == Some(ReplyOf(es));
    if Separable(es) { SeparableReply(es); } else { InseparableReply(es); }
  }

  /** Faithful elements arrive unchanged. */
  lemma FaithfulElements(es: seq<SExp>)
    requires Separable(es) && forall k :: 0 <= k < |es| ==> Faithful(es[k], true)
    ensures ReadableAll(es) && ReadBackAll(es) == es
  {
    forall k | 0 <= k < |es|
      ensures Readable(es[k], true) && ReadBack(es[k], true) == es[k]
    {
      FaithfulReadsBack(es[k], true);
    }
  }
}
