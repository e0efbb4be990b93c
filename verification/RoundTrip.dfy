/** Printing an s-expression and reading it back.

    ReadBack is the tree that comes back for every readable tree, and a tree
    comes back unchanged exactly when it is Faithful. Everything is stated with
    the text that follows, so that printed trees can be put next to each other. */
module RoundTrip {
  import opened CStrings
  import opened Sequences
  import opened Numerals
  import opened SExpressions

  // ----- The exact domain

  /** What a character of a string has become once printed and read: the reader
      drops the backslash of a C escape but does not translate its letter. */
  function SoftenChar(c: char): char {
    match c
    case '\n' => 'n'
    case '\r' => 'r'
    case '\t' => 't'
    case _ => c
  }

  function Soften(s: cstring): (r: cstring)
    ensures |r| == |s|
  {
    if s == "" then "" else [SoftenChar(s[0])] + Soften(s[1..])
  }

  /** The period in front of a bare symbol is lost inside a list. */
  predicate LosesPeriod(name: cstring, inList: bool) {
    inList && Peek(name) == '.' && !NeedsQuoting(name)
  }

  /** Trees that can be printed and read at all: no symbol name holds a
      backslash, and none that loses its period turns into a too large integer. */
  predicate Readable(e: SExp, inList: bool) {
    match e
    case Symbol(name) =>
      && '\\' !in name
      && (LosesPeriod(name, inList) ==> Classify(name[1..], false, "").Ok?)
    case Pair(car, cdr) => Readable(car, true) && Readable(cdr, true)
    case _ => true
  }

  function ReadBack(e: SExp, inList: bool): SExp
    requires Readable(e, inList)
  {
    match e
    case Nil => Nil
    case Int(_) => e
    case Str(value) => Str(Soften(CStr(value)))
    case Symbol(name) =>
      if LosesPeriod(name, inList) then Classify(name[1..], false, "").value
      else if name == "nil" then Nil
      else e
    case Pair(car, cdr) => Pair(ReadBack(car, true), ReadBack(cdr, true))
  }

  /** Characters that a printed string does not give back. */
  predicate Soft(c: char) {
    c == '\n' || c == '\r' || c == '\t' || c == NUL
  }

  predicate Faithful(e: SExp, inList: bool) {
    match e
    case Symbol(name) => '\\' !in name && name != "nil" && !LosesPeriod(name, inList)
    case Str(value) => forall k :: 0 <= k < |value| ==> !Soft(value[k])
    case Pair(car, cdr) => Faithful(car, true) && Faithful(cdr, true)
    case _ => true
  }

  /** Trees whose printed form shows where it ends. */
  predicate SelfDelimiting(e: SExp) {
    e.Pair? || e.Str? || (e.Symbol? && NeedsQuoting(e.name))
  }

  /** Reading at the top level or as an element of a list. */
  function ReadAt(s: string, inList: bool): Reading<SExp> {
    if inList then ReadItem(s) else ReadSexp(s)
  }

  // ----- Strings, bars and tokens

  lemma EscapedCharRead(c: char, left: string)
    requires c != NUL
    ensures ReadDelimited('"', CEscapeChar(c) + left) == Prepend(SoftenChar(c), ReadDelimited('"', left))
  {
    var text := CEscapeChar(c) + left;
    if |CEscapeChar(c)| == 1 {
      assert text[1..] == left;
    } else {
      assert text[2..] == left && text[1] == CEscapeChar(c)[1];
    }
  }

  lemma {:induction false} StringRoundTrip(s: cstring, suffix: string)
    ensures ReadDelimited('"', CEscapeAll(s) + "\"" + suffix) == Ok(Soften(s), suffix)
  {
    var text := CEscapeAll(s) + "\"" + suffix;
    if s == "" {
      assert text == "\"" + suffix;
    } else {
      var left := CEscapeAll(s[1..]) + "\"" + suffix;
      assert text == CEscapeChar(s[0]) + left;
      EscapedCharRead(s[0], left);
      StringRoundTrip(s[1..], suffix);
    }
  }

  lemma {:induction false} SoftenFixpoint(s: string)
    ensures Soften(CStr(s)) == s <==> forall k :: 0 <= k < |s| ==> !Soft(s[k])
  {
    if s != "" {
      SoftenFixpoint(s[1..]);
      assert s == [s[0]] + s[1..];
      assert forall k :: 0 <= k < |s[1..]| ==> s[1..][k] == s[k + 1];
      if s[0] != NUL {
        var t := CStr(s);
        assert t[1..] == CStr(s[1..]);
        assert Soften(t) == [SoftenChar(s[0])] + Soften(t[1..]);
        if forall k :: 0 <= k < |s[1..]| ==> !Soft(s[1..][k]) {
          assert forall k :: 1 <= k < |s| ==> s[k] == s[1..][k - 1];
        }
        assert Soften(t) == s ==> Soften(t)[1..] == s[1..];
      }
    }
  }

  lemma EscapedBarRead(c: char, left: string)
    requires c != NUL && c != '\\'
    ensures ReadDelimited('|', (if c == '|' then "\\|" else [c]) + left) == Prepend(c, ReadDelimited('|', left))
  {
    if c == '|' {
      assert ("\\|" + left)[1] == '|' && ("\\|" + left)[2..] == left;
    } else {
      ConsTail(c, left);
    }
  }

  lemma {:induction false} BarsRoundTrip(name: cstring, suffix: string)
    requires '\\' !in name
    ensures ReadDelimited('|', EscapeBars(name) + "|" + suffix) == Ok(name, suffix)
  {
    var text := EscapeBars(name) + "|" + suffix;
    if name == "" {
      assert text == "|" + suffix;
    } else {
      var first := if name[0] == '|' then "\\|" else [name[0]];
      var left := EscapeBars(name[1..]) + "|" + suffix;
      BarsRoundTrip(name[1..], suffix);
      assert text == first + left;
      EscapedBarRead(name[0], left);
      HeadTail(name);
    }
  }

  /** Reading halves a run of m backslashes; then comes the end of the symbol
      or a character that is no backslash. */
  lemma {:induction false} RunOfBackslashes(s: string, m: nat)
    requires m < |s| && s[m] != '\\' && forall k :: 0 <= k < m ==> s[k] == '\\'
    requires ReadDelimited('|', s).Ok?
    ensures var o := ReadDelimited('|', s).value;
            || (m % 2 == 0 && s[m] == '|' && |o| == m / 2)
            || (|o| > m / 2 && o[m / 2] != '\\')
  {
    if m >= 2 {
      assert s[1..][0] == '\\' && s[2..][m - 2] == s[m];
      RunOfBackslashes(s[2..], m - 2);
    }
  }

  /** The backslashes a string begins with. */
  function Backslashes(s: string): (n: nat)
    ensures n <= |s|
    ensures forall k :: 0 <= k < n ==> s[k] == '\\'
    ensures n < |s| ==> s[n] != '\\'
  {
    if Peek(s) != '\\' then 0 else 1 + Backslashes(s[1..])
  }

  lemma {:induction false} EscapeRun(s: string, n: nat)
    requires n <= |s| && forall k :: 0 <= k < n ==> s[k] == '\\'
    ensures EscapeBars(s) == s[..n] + EscapeBars(s[n..])
  {
    if n == 0 {
      assert s[n..] == s;
    } else {
      EscapeRun(s[1..], n - 1);
      assert s[1..][n - 1..] == s[n..];
      assert s[..n] == [s[0]] + s[1..][..n - 1];
      Associative([s[0]], s[1..][..n - 1], EscapeBars(s[n..]));
    }
  }

  lemma LeadingBackslashIsLost(name: cstring, suffix: string)
    requires Peek(name) == '\\'
    ensures var r := ReadDelimited('|', EscapeBars(name) + "|" + suffix); !(r.Ok? && r.value == name)
  {
    var text := EscapeBars(name) + "|" + suffix;
    var n := Backslashes(name);
    EscapeRun(name, n);
    var tail := EscapeBars(name[n..]) + "|" + suffix;
    assert text == name[..n] + tail;
    if ReadDelimited('|', text).Ok? {
      if n < |name| && name[n] == '|' {
        assert tail[0] == '\\' && tail[1] == '|';
        assert text[n] == tail[0] && text[n + 1] == tail[1];
        RunOfBackslashes(text, n + 1);
      } else {
        assert text[n] == tail[0];
        RunOfBackslashes(text, n);
      }
    }
  }

  /** A name that holds a backslash is never given back. */
  lemma {:induction false} BackslashIsLost(name: cstring, suffix: string)
    requires '\\' in name
    ensures var r := ReadDelimited('|', EscapeBars(name) + "|" + suffix); !(r.Ok? && r.value == name)
  {
    var text := EscapeBars(name) + "|" + suffix;
    if name[0] == '\\' {
      LeadingBackslashIsLost(name, suffix);
    } else {
      var first := if name[0] == '|' then "\\|" else [name[0]];
      var left := EscapeBars(name[1..]) + "|" + suffix;
      HeadTail(name);
      BackslashIsLost(name[1..], suffix);
      assert text == first + left;
      EscapedBarRead(name[0], left);
    }
  }

  /** Characters that neither end nor escape an unquoted token. */
  predicate Plain(s: string) {
    forall k :: 0 <= k < |s| ==> !IsSpace(s[k]) && s[k] != ')' && s[k] != '\\' && s[k] != NUL
  }

  lemma {:induction false} PlainToken(t: cstring, suffix: string)
    requires Plain(t) && EndsToken(suffix)
    ensures ScanToken(t + suffix) == Token(t, false, suffix)
  {
    if t == "" {
      assert t + suffix == suffix;
    } else {
      PlainToken(t[1..], suffix);
      assert (t + suffix)[1..] == t[1..] + suffix;
      assert t == [t[0]] + t[1..];
    }
  }

  // ----- Atoms

  /** How printed text begins. */
  lemma FirstChar(e: SExp)
    ensures Repr(e) != ""
    ensures var c := Repr(e)[0];
            && !IsSpace(c) && c != ')' && c != NUL
            && (c == '(' <==> e.Pair?)
            && (c == '"' <==> e.Str?)
            && (c == '|' <==> e.Symbol? && NeedsQuoting(e.name))
            && (c == '.' <==> e.Symbol? && LosesPeriod(e.name, true))
  {
    match e
    case Symbol(name) =>
      if !NeedsQuoting(name) { assert IsSymbolChar(name[0]); }
    case Int(number) =>
      assert IsDigit(Digits(if number < 0 then 0 - number else number)[0]);
    case _ =>
  }

  lemma LonePeriodIsQuoted(name: cstring)
    ensures |name| == 1 && name[0] == '.' ==> NeedsQuoting(name)
  {
    assert |name| == 1 && name[0] == '.' ==> AllPeriods(name);
  }

  /** A lone period is never printed in front. */
  lemma NotAtDot(e: SExp, suffix: string)
    ensures !AtDot(Repr(e) + suffix)
  {
    FirstChar(e);
    if e.Symbol? && LosesPeriod(e.name, true) {
      LonePeriodIsQuoted(e.name);
      assert IsSymbolChar(e.name[1]) && (e.name + suffix)[1] == e.name[1];
    }
  }

  lemma ReprStart(e: SExp, suffix: string)
    ensures var s := Repr(e) + suffix;
            Repr(e) != "" && s[0] == Repr(e)[0] && SkipSpace(s) == s && !AtDot(s)
  {
    FirstChar(e);
    NotAtDot(e, suffix);
  }

  lemma BareSymbolIsPlain(name: cstring)
    requires !NeedsQuoting(name)
    ensures Plain(name) && name != ""
  {
    forall k | 0 <= k < |name|
      ensures !IsSpace(name[k]) && name[k] != ')' && name[k] != '\\'
    {
      assert IsSymbolChar(name[k]);
    }
  }

  lemma DecimalIsPlain(i: int32)
    ensures Plain(Decimal(i)) && Decimal(i) != ""
  {
    var n: int := if i < 0 then 0 - i else i;
    var digits := Digits(n);
    forall k | 0 <= k < |digits|
      ensures !IsSpace(digits[k]) && digits[k] != ')' && digits[k] != '\\' && digits[k] != NUL
    {
      assert IsDigit(digits[k]);
    }
  }

  /** What comes back for a symbol that is printed without bars. */
  lemma BareSymbolRoundTrip(name: cstring, suffix: string, inList: bool)
    requires !NeedsQuoting(name) && EndsToken(suffix)
    ensures var text := if LosesPeriod(name, inList) then name[1..] else name;
            text != "" && ReadAt(name + suffix, inList) == Classify(text, false, suffix)
  {
    BareSymbolIsPlain(name);
    assert (name + suffix)[0] == name[0] && IsSymbolChar(name[0]);
    var text: cstring := if LosesPeriod(name, inList) then name[1..] else name;
    if LosesPeriod(name, inList) {
      LonePeriodIsQuoted(name);
      assert (name + suffix)[1..] == text + suffix;
      assert Plain(text);
      assert IsSymbolChar(name[1]);
    }
    BareTokenRead(text, suffix);
  }

  lemma BareTokenRead(text: cstring, suffix: string)
    requires Plain(text) && text != "" && IsSymbolChar(text[0]) && EndsToken(suffix)
    ensures ReadSexp(text + suffix) == Classify(text, false, suffix)
  {
    PlainToken(text, suffix);
    assert (text + suffix)[0] == text[0];
  }

  /** Quoted text is read by its opening delimiter. */
  lemma QuotedRead(delimiter: char, content: string, suffix: string, inList: bool)
    requires delimiter == '"' || delimiter == '|'
    ensures var r := ReadDelimited(delimiter, content + [delimiter] + suffix);
            ReadAt([delimiter] + content + [delimiter] + suffix, inList) == if delimiter == '"' then ToStr(r) else ToSymbol(r)
  {
    var s := [delimiter] + content + [delimiter] + suffix;
    assert s[1..] == content + [delimiter] + suffix;
    assert SkipSpace(s) == s && Peek(s) == delimiter;
    assert ReadSexp(s) == if delimiter == '"' then ToStr(ReadDelimited('"', s[1..])) else ToSymbol(ReadDelimited('|', s[1..]));
  }

  lemma NumberRoundTrip(i: int32, suffix: string, inList: bool)
    requires EndsToken(suffix)
    ensures ReadAt(Decimal(i) + suffix, inList) == Ok(Int(i), suffix)
  {
    DecimalIsPlain(i);
    DecimalRoundTrip(i);
    assert IsDigit(Decimal(i)[0]) || Decimal(i)[0] == '-' by {
      if i >= 0 { assert IsDigit(Digits(i)[0]); }
    }
    BareTokenRead(Decimal(i), suffix);
    assert (Decimal(i) + suffix)[0] == Decimal(i)[0];
  }

  lemma NilRoundTrip(suffix: string, inList: bool)
    requires EndsToken(suffix)
    ensures ReadAt("nil" + suffix, inList) == Ok(Nil, suffix)
  {
    assert !IsDigit("nil"[0]);
    BareTokenRead("nil", suffix);
  }

  lemma AtomRoundTrip(e: SExp, suffix: string, inList: bool)
    requires !e.Pair? && Readable(e, inList)
    requires EndsToken(suffix) || SelfDelimiting(e)
    ensures ReadAt(Repr(e) + suffix, inList) == Ok(ReadBack(e, inList), suffix)
  {
    match e
    case Nil =>
      NilRoundTrip(suffix, inList);
    case Int(number) =>
      NumberRoundTrip(number, suffix, inList);
    case Str(value) =>
      StringRoundTrip(CStr(value), suffix);
      QuotedRead('"', CEscapeAll(CStr(value)), suffix, inList);
    case Symbol(name) =>
      if NeedsQuoting(name) {
        BarsRoundTrip(name, suffix);
        QuotedRead('|', EscapeBars(name), suffix, inList);
        assert !IsSymbolChar(NUL);
      } else {
        BareSymbolRoundTrip(name, suffix, inList);
      }
  }

  // ----- Trees

  lemma {:induction false} ChainAppend(items: seq<SExp>, item: SExp, tail: SExp)
    ensures Chain(items + [item], tail) == Chain(items, Pair(item, tail))
  {
    if items != [] {
      ChainAppend(items[1..], item, tail);
      assert (items + [item])[1..] == items[1..] + [item];
    }
  }

  /** Printed and read again, every readable tree comes back as ReadBack says,
      and exactly the text behind it is left. */
  lemma {:induction false} PrintThenRead(e: SExp, suffix: string, inList: bool)
    requires Readable(e, inList)
    requires EndsToken(suffix) || SelfDelimiting(e)
    ensures ReadAt(Repr(e) + suffix, inList) == Ok(ReadBack(e, inList), suffix)
    decreases e, 1
  {
    if e.Pair? {
      PairRead(e, suffix, inList);
      BodyRoundTrip(e, suffix, []);
    } else {
      AtomRoundTrip(e, suffix, inList);
    }
  }

  /** An opening parenthesis sends the reader into the list. */
  lemma PairRead(e: SExp, suffix: string, inList: bool)
    requires e.Pair?
    ensures ReadAt(Repr(e) + suffix, inList) == ReadItems(ReprWithoutParens(e) + ")" + suffix, [], false)
  {
    var s, body := Repr(e) + suffix, ReprWithoutParens(e) + ")" + suffix;
    FirstChar(e);
    ReprStart(e, suffix);
    AfterCarStart(e, suffix);
    ReprStart(e.car, AfterCar(e, suffix));
    assert s[1..] == body;
    assert SkipSpace(body) == body;
    assert ReadSexp(s) == ReadItems(body, [], false);
  }

  /** The text that follows the first element of a list. */
  function AfterCar(e: SExp, suffix: string): string
    requires e.Pair?
  {
    (if e.cdr.Nil? then ""
     else if e.cdr.Pair? then " " + ReprWithoutParens(e.cdr)
     else " . " + Repr(e.cdr)) + ")" + suffix
  }

  /** Where the reader continues after the first element of a list. */
  lemma AfterCarStart(e: SExp, suffix: string)
    requires e.Pair?
    ensures ReprWithoutParens(e) + ")" + suffix == Repr(e.car) + AfterCar(e, suffix)
    ensures EndsToken(AfterCar(e, suffix))
    ensures var s := SkipSpace(AfterCar(e, suffix));
            if e.cdr.Nil? then s == ")" + suffix
            else if e.cdr.Pair? then s == ReprWithoutParens(e.cdr) + ")" + suffix
            else AtDot(s) && SkipSpace(s[2..]) == Repr(e.cdr) + ")" + suffix
  {
    if e.cdr.Nil? {
      assert AfterCar(e, suffix) == ")" + suffix;
    } else if e.cdr.Pair? {
      BeforePair(e, suffix);
    } else {
      BeforeTail(e, suffix);
    }
  }

  lemma BeforePair(e: SExp, suffix: string)
    requires e.Pair? && e.cdr.Pair?
    ensures EndsToken(AfterCar(e, suffix))
    ensures SkipSpace(AfterCar(e, suffix)) == ReprWithoutParens(e.cdr) + ")" + suffix
  {
    var body := ReprWithoutParens(e.cdr) + ")" + suffix;
    assert AfterCar(e, suffix)[1..] == body;
    FirstChar(e.cdr.car);
    assert body[0] == Repr(e.cdr.car)[0];
  }

  lemma BeforeTail(e: SExp, suffix: string)
    requires e.Pair? && !e.cdr.Pair? && !e.cdr.Nil?
    ensures EndsToken(AfterCar(e, suffix))
    ensures var s := SkipSpace(AfterCar(e, suffix));
            AtDot(s) && SkipSpace(s[2..]) == Repr(e.cdr) + ")" + suffix
  {
    var tail := Repr(e.cdr) + ")" + suffix;
    var left := AfterCar(e, suffix);
    assert left == " . " + tail;
    assert left[1..] == ". " + tail;
    assert left[1..][2..] == tail;
    FirstChar(e.cdr);
    assert tail[0] == Repr(e.cdr)[0];
  }

  /** Once its first element is read, a list goes on with what follows it. */
  lemma CarRead(e: SExp, suffix: string, items: seq<SExp>)
    requires e.Pair? && ReadItem(Repr(e.car) + AfterCar(e, suffix)).Ok?
    ensures ReadItems(ReprWithoutParens(e) + ")" + suffix, items, false)
         == ReadItems(SkipSpace(ReadItem(Repr(e.car) + AfterCar(e, suffix)).rest),
                      items + [ReadItem(Repr(e.car) + AfterCar(e, suffix)).value], false)
  {
    AfterCarStart(e, suffix);
    FirstChar(e.car);
    ReprStart(e.car, AfterCar(e, suffix));
  }

  lemma CarNotRead(e: SExp, suffix: string, items: seq<SExp>)
    requires e.Pair? && !ReadItem(Repr(e.car) + AfterCar(e, suffix)).Ok?
    ensures !ReadItems(ReprWithoutParens(e) + ")" + suffix, items, false).Ok?
  {
    AfterCarStart(e, suffix);
    FirstChar(e.car);
    ReprStart(e.car, AfterCar(e, suffix));
  }

  /** The tail of an improper list is read like an element. */
  lemma TailRead(e: SExp, suffix: string, items: seq<SExp>)
    requires e.Pair? && !e.cdr.Pair? && !e.cdr.Nil?
    ensures ReadItems(SkipSpace(AfterCar(e, suffix)), items, false) == ReadItems(Repr(e.cdr) + ")" + suffix, items, true)
  {
    AfterCarStart(e, suffix);
  }

  lemma {:induction false} BodyRoundTrip(e: SExp, suffix: string, items: seq<SExp>)
    requires e.Pair? && Readable(e, true)
    ensures ReadItems(ReprWithoutParens(e) + ")" + suffix, items, false)
         == Ok(Chain(items, ReadBack(e, true)), suffix)
    decreases e, 0
  {
    hide ReadItems, ReadItem, Repr, ReprWithoutParens, AfterCar, Chain;
    var left := AfterCar(e, suffix);
    var car, cdr := ReadBack(e.car, true), ReadBack(e.cdr, true);
    AfterCarStart(e, suffix);
    PrintThenRead(e.car, left, true);
    CarRead(e, suffix, items);
    ChainAppend(items, car, cdr);
    if e.cdr.Pair? {
      BodyRoundTrip(e.cdr, suffix, items + [car]);
    } else if e.cdr.Nil? {
      CloseRead(suffix, items + [car]);
    } else {
      TailRead(e, suffix, items + [car]);
      TailRoundTrip(e.cdr, suffix, items + [car]);
    }
  }

  lemma CloseRead(suffix: string, items: seq<SExp>)
    ensures ReadItems(")" + suffix, items, false) == Ok(Chain(items, Nil), suffix)
  {
  }

  lemma TailRoundTrip(e: SExp, suffix: string, items: seq<SExp>)
    requires !e.Pair? && Readable(e, true) && items != []
    ensures ReadItems(Repr(e) + ")" + suffix, items, true) == Ok(Chain(items, ReadBack(e, true)), suffix)
  {
    var close := ")" + suffix;
    assert Repr(e) + ")" + suffix == Repr(e) + close;
    AtomRoundTrip(e, close, true);
    FirstChar(e);
    ReprStart(e, close);
    LastIsTail(items, ReadBack(e, true));
    assert ReadItems(close, items + [ReadBack(e, true)], true) == Ok(Chain(items, ReadBack(e, true)), suffix);
  }

  // ----- Which trees come back unchanged

  lemma {:induction false} FaithfulReadsBack(e: SExp, inList: bool)
    requires Faithful(e, inList)
    ensures Readable(e, inList) && ReadBack(e, inList) == e
  {
    match e
    case Str(value) => SoftenFixpoint(value);
    case Pair(car, cdr) =>
      FaithfulReadsBack(car, true);
      FaithfulReadsBack(cdr, true);
    case _ =>
  }

  /** How many parentheses are opened before the first atom. */
  function HeadDepth(e: SExp): nat {
    if e.Pair? then 1 + HeadDepth(e.car) else 0
  }

  /** Whatever a list reader returns starts with the elements it already had. */
  lemma {:induction false} ItemsAreKept(s: string, items: seq<SExp>, improper: bool) returns (more: seq<SExp>, improperEnd: bool)
    requires ReadItems(s, items, improper).Ok?
    ensures improper ==> improperEnd
    ensures ReadItems(s, items, improper).value == BuildList(items + more, improperEnd)
    decreases |s|
  {
    if Peek(s) == ')' {
      more, improperEnd := [], improper;
      assert items + more == items;
    } else if AtDot(s) {
      more, improperEnd := ItemsAreKept(SkipSpace(s[2..]), items, true);
    } else {
      var item := ReadItem(s);
      more, improperEnd := ItemsAreKept(SkipSpace(item.rest), items + [item.value], improper);
      assert items + [item.value] + more == items + ([item.value] + more);
      more := [item.value] + more;
    }
  }

  lemma {:induction false} ChainInjective(items: seq<SExp>, a: SExp, b: SExp)
    requires Chain(items, a) == Chain(items, b)
    ensures a == b
  {
    if items != [] { ChainInjective(items[1..], a, b); }
  }

  lemma {:induction false} ChainSplit(items: seq<SExp>, more: seq<SExp>, tail: SExp)
    ensures Chain(items + more, tail) == Chain(items, Chain(more, tail))
  {
    if items == [] {
      assert items + more == more;
    } else {
      ChainSplit(items[1..], more, tail);
      assert (items + more)[1..] == items[1..] + more;
    }
  }

  /** A list with elements [items..., item, more...] is item consed onto something
      behind items, unless item has become the improper tail. */
  lemma BuiltBehind(items: seq<SExp>, item: SExp, more: seq<SExp>, improper: bool, t: SExp)
    requires BuildList(items + [item] + more, improper) == Chain(items, t)
    ensures (t.Pair? && t.car == item) || (improper && more == [] && t == item)
  {
    if !improper || items + more == [] {
      assert BuildList(items + [item] + more, improper) == Chain(items + [item] + more, Nil);
      FirstBehind(items, item, more, Nil, t);
    } else if more == [] {
      LastIsTail(items, item);
      assert items + [item] + more == items + [item];
      ChainInjective(items, item, t);
    } else {
      BuiltWithTail(items, item, more, t);
    }
  }

  lemma BuiltWithTail(items: seq<SExp>, item: SExp, more: seq<SExp>, t: SExp)
    requires more != [] && BuildList(items + [item] + more, true) == Chain(items, t)
    ensures t.Pair? && t.car == item
  {
    hide Chain, BuildList;
    var rest, tail := more[..|more| - 1], more[|more| - 1];
    SplitLast(more);
    Associative(items + [item], rest, [tail]);
    LastIsTail(items + [item] + rest, tail);
    FirstBehind(items, item, rest, tail, t);
  }

  lemma LastIsTail(items: seq<SExp>, tail: SExp)
    requires items != []
    ensures BuildList(items + [tail], true) == Chain(items, tail)
  {
    assert (items + [tail])[..|items|] == items;
  }

  lemma FirstBehind(items: seq<SExp>, item: SExp, rest: seq<SExp>, tail: SExp, t: SExp)
    requires Chain(items + [item] + rest, tail) == Chain(items, t)
    ensures t == Pair(item, Chain(rest, tail))
  {
    ChainSplit(items + [item], rest, tail);
    ChainAppend(items, item, Chain(rest, tail));
    ChainInjective(items, Pair(item, Chain(rest, tail)), t);
  }

  /** The reader never opens more parentheses in front than were printed. */
  lemma {:induction false} HeadDepthIsKept(e: SExp, suffix: string, inList: bool)
    requires ReadAt(Repr(e) + suffix, inList).Ok?
    ensures HeadDepth(ReadAt(Repr(e) + suffix, inList).value) == HeadDepth(e)
  {
    var s := Repr(e) + suffix;
    if e.Pair? {
      var left := AfterCar(e, suffix);
      PairRead(e, suffix, inList);
      AfterCarStart(e, suffix);
      FirstChar(e.car);
      ReprStart(e.car, left);
      var body := Repr(e.car) + left;
      var first := ReadItem(body);
      HeadDepthIsKept(e.car, left, true);
      assert first.Ok?;
      var none: seq<SExp> := [];
      assert none + [first.value] == [first.value];
      var more, improper := ItemsAreKept(SkipSpace(first.rest), [first.value], false);
      BuiltBehind([], first.value, more, improper, ReadAt(s, inList).value);
    } else if Repr(e)[0] == '.' && inList {
      FirstChar(e);
      BareSymbolFirst(e.name);
      assert s == e.name + suffix && Peek(s[1..]) == e.name[1];
      assert SkipSpace(s[1..]) == s[1..];
      assert ReadSexp(s[1..]) == ReadToken(s[1..]);
    }
  }

  lemma BareSymbolFirst(name: cstring)
    requires LosesPeriod(name, true)
    ensures |name| >= 2 && IsSymbolChar(name[1])
  {
    LonePeriodIsQuoted(name);
  }

  /** `r` is a reading of the tree `e`, whatever text it leaves. */
  predicate Reads(r: Reading<SExp>, e: SExp) {
    r.Ok? && r.value == e
  }

  lemma UnfaithfulAtom(e: SExp, suffix: string, inList: bool)
    requires !e.Pair? && !Faithful(e, inList)
    requires EndsToken(suffix) || SelfDelimiting(e)
    ensures !Reads(ReadAt(Repr(e) + suffix, inList), e)
  {
    if e.Str? {
      AtomRoundTrip(e, suffix, inList);
      SoftenFixpoint(e.value);
    } else if NeedsQuoting(e.name) {
      QuotedRead('|', EscapeBars(e.name), suffix, inList);
      QuotedIsNotNil(e.name);
      BackslashIsLost(e.name, suffix);
    } else {
      BareSymbolIsPlain(e.name);
      BareSymbolRoundTrip(e.name, suffix, inList);
    }
  }

  lemma QuotedIsNotNil(name: cstring)
    requires NeedsQuoting(name)
    ensures name != "nil"
  {
    assert !IsDigit("nil"[0]);
  }

  /** A tree that is not faithful does not come back, whatever follows it. */
  lemma {:induction false} UnfaithfulIsLost(e: SExp, suffix: string, inList: bool)
    requires !Faithful(e, inList)
    requires EndsToken(suffix) || SelfDelimiting(e)
    ensures !Reads(ReadAt(Repr(e) + suffix, inList), e)
    decreases e, 1
  {
    if e.Pair? {
      PairRead(e, suffix, inList);
      UnfaithfulBody(e, suffix, []);
    } else {
      UnfaithfulAtom(e, suffix, inList);
    }
  }

  lemma {:induction false} UnfaithfulBody(e: SExp, suffix: string, items: seq<SExp>)
    requires e.Pair? && !Faithful(e, true)
    ensures !Reads(ReadItems(ReprWithoutParens(e) + ")" + suffix, items, false), Chain(items, e))
    decreases e, 0
  {
    hide ReadItems, ReadItem, Repr, ReprWithoutParens, AfterCar, Chain;
    var left := AfterCar(e, suffix);
    AfterCarStart(e, suffix);
    if !Faithful(e.car, true) {
      UnfaithfulIsLost(e.car, left, true);
      UnfaithfulCar(e, suffix, items);
    } else {
      FaithfulReadsBack(e.car, true);
      PrintThenRead(e.car, left, true);
      CarRead(e, suffix, items);
      ChainAppend(items, e.car, e.cdr);
      if e.cdr.Pair? {
        UnfaithfulBody(e.cdr, suffix, items + [e.car]);
      } else {
        TailRead(e, suffix, items + [e.car]);
        UnfaithfulIsLost(e.cdr, ")" + suffix, true);
        Associative(Repr(e.cdr), ")", suffix);
        UnfaithfulTail(e.cdr, ")" + suffix, items + [e.car]);
      }
    }
  }

  lemma UnfaithfulCar(e: SExp, suffix: string, items: seq<SExp>)
    requires e.Pair? && !Reads(ReadItem(Repr(e.car) + AfterCar(e, suffix)), e.car)
    ensures !Reads(ReadItems(ReprWithoutParens(e) + ")" + suffix, items, false), Chain(items, e))
  {
    hide ReadItems, ReadItem, Repr, ReprWithoutParens, AfterCar, Chain, BuildList;
    var first := ReadItem(Repr(e.car) + AfterCar(e, suffix));
    if first.Ok? {
      CarRead(e, suffix, items);
      HeadDepthIsKept(e.car, AfterCar(e, suffix), true);
      if Reads(ReadItems(ReprWithoutParens(e) + ")" + suffix, items, false), Chain(items, e)) {
        var more, improper := ItemsAreKept(SkipSpace(first.rest), items + [first.value], false);
        BuiltBehind(items, first.value, more, improper, e);
      }
    } else {
      CarNotRead(e, suffix, items);
    }
  }

  lemma UnfaithfulTail(e: SExp, suffix: string, items: seq<SExp>)
    requires !e.Pair? && items != [] && !Reads(ReadItem(Repr(e) + suffix), e)
    ensures !Reads(ReadItems(Repr(e) + suffix, items, true), Chain(items, e))
  {
    var text := Repr(e) + suffix;
    FirstChar(e);
    ReprStart(e, suffix);
    var first := ReadItem(text);
    if ReadItems(text, items, true).Ok? {
      var more, improper := ItemsAreKept(SkipSpace(first.rest), items + [first.value], true);
      if BuildList(items + [first.value] + more, improper) == Chain(items, e) {
        BuiltBehind(items, first.value, more, improper, e);
      }
    }
  }

  /** The law of the reader and the printer: a tree that is printed in front of
      any text that ends a token is read back as the same tree, leaving exactly
      that text, if and only if it is faithful. */
  lemma ReadPrintedExactly(e: SExp, suffix: string)
    requires EndsToken(suffix) || SelfDelimiting(e)
    ensures ReadSexp(Repr(e) + suffix) == Ok(e, suffix) <==> Faithful(e, false)
    ensures Reads(ReadSexp(Repr(e) + suffix), e) <==> Faithful(e, false)
  {
    if Faithful(e, false) {
      FaithfulReadsBack(e, false);
      PrintThenRead(e, suffix, false);
    } else {
      UnfaithfulIsLost(e, suffix, false);
    }
  }

  /** Where the law stops: trees that are not given back. */
  lemma NilSymbolIsLost()
    ensures ReadSexp(Repr(Symbol("nil"))) == Ok(Nil, "")
  {
    assert !NeedsQuoting("nil") by { assert "nil"[0] == 'n'; }
    assert "nil" + "" == "nil";
    PrintThenRead(Symbol("nil"), "", false);
  }

  lemma TabIsLost()
    ensures ReadSexp(Repr(Str("\t"))) == Ok(Str("t"), "")
  {
    assert Repr(Str("\t")) + "" == Repr(Str("\t"));
    assert "\t"[1..] == "" && CStr("\t") == "\t" && Soften("\t") == "t";
    PrintThenRead(Str("\t"), "", false);
  }

  lemma LeadingPeriodIsLost()
    ensures ReadSexp(Repr(Pair(Symbol(".x"), Nil))) == Ok(Pair(Symbol("x"), Nil), "")
  {
    var name := ".x";
    assert name[0] == '.' && name[1] == 'x' && name[1..] == "x";
    assert !NeedsQuoting(name) && Classify("x", false, "") == Ok(Symbol("x"), "") by { assert "x"[0] == 'x'; }
    assert Repr(Pair(Symbol(name), Nil)) + "" == Repr(Pair(Symbol(name), Nil));
    PrintThenRead(Pair(Symbol(name), Nil), "", false);
  }

  // ----- The reader never passes the terminator

  /** `r` is what is left of `s` after some of its characters were read. */
  ghost predicate LeftOf(r: string, s: string) {
    |r| <= |s| && r == s[|s| - |r|..]
  }

  lemma LeftOfLeft(a: string, b: string, c: string)
    requires LeftOf(a, b) && LeftOf(b, c)
    ensures LeftOf(a, c)
  {
  }

  lemma {:induction false} SpaceLeft(s: string)
    ensures LeftOf(SkipSpace(s), s)
  {
    if IsSpace(Peek(s)) {
      SpaceLeft(s[1..]);
      LeftOfLeft(SkipSpace(s), s[1..], s);
    }
  }

  lemma {:induction false} DelimitedLeft(delimiter: char, s: string)
    requires ReadDelimited(delimiter, s).Ok?
    ensures LeftOf(ReadDelimited(delimiter, s).rest, s)
  {
    if s[0] != delimiter {
      var next := if s[0] == '\\' then s[2..] else s[1..];
      DelimitedLeft(delimiter, next);
      LeftOfLeft(ReadDelimited(delimiter, s).rest, next, s);
    }
  }

  lemma {:induction false} TokenLeft(s: string)
    requires ScanToken(s).Token?
    ensures LeftOf(ScanToken(s).rest, s)
  {
    if !EndsToken(s) {
      var next := if s[0] == '\\' then s[2..] else s[1..];
      TokenLeft(next);
      LeftOfLeft(ScanToken(s).rest, next, s);
    }
  }

  /** What a returned tree leaves is a proper suffix of the text: at least one
      character was read, and none behind the terminator. */
  lemma {:induction false} SexpLeft(s: string)
    requires ReadSexp(s).Ok?
    ensures LeftOf(ReadSexp(s).rest, s) && |ReadSexp(s).rest| < |s|
    decreases |s|, 0
  {
    var t := SkipSpace(s);
    SpaceLeft(s);
    if t[0] == '(' {
      SpaceLeft(t[1..]);
      ItemsLeft(SkipSpace(t[1..]), [], false);
      LeftOfLeft(SkipSpace(t[1..]), t[1..], t);
      LeftOfLeft(ReadSexp(s).rest, SkipSpace(t[1..]), t);
    } else if t[0] == '"' || t[0] == '|' {
      DelimitedLeft(t[0], t[1..]);
      LeftOfLeft(ReadSexp(s).rest, t[1..], t);
    } else {
      TokenLeft(t);
    }
    LeftOfLeft(ReadSexp(s).rest, t, s);
  }

  lemma {:induction false} ItemsLeft(s: string, items: seq<SExp>, improper: bool)
    requires ReadItems(s, items, improper).Ok?
    ensures LeftOf(ReadItems(s, items, improper).rest, s)
    decreases |s|, 1
  {
    if Peek(s) != ')' {
      var from := if Peek(s) == '.' then s[1..] else s;
      var item := ReadSexp(from);
      if !AtDot(s) { SexpLeft(from); }
      var next := if AtDot(s) then s[2..] else item.rest;
      assert LeftOf(next, s) by { if !AtDot(s) { LeftOfLeft(next, from, s); } }
      SpaceLeft(next);
      if AtDot(s) {
        ItemsLeft(SkipSpace(next), items, true);
      } else {
        ItemsLeft(SkipSpace(next), items + [item.value], improper);
      }
      LeftOfLeft(SkipSpace(next), next, s);
      LeftOfLeft(ReadItems(s, items, improper).rest, SkipSpace(next), s);
    }
  }
}
