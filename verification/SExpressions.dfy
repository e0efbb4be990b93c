/** S-expressions: trees, printed representation, and the recursive-descent
    reader (sexpression.h, sexpression.cc, CEscape of strutil.cc).

    The functions say what is printed and read; the methods at the end do it as
    the program does, appending to one buffer and advancing one cursor. */
module SExpressions {
  import opened CStrings
  import opened Sequences
  import opened Numerals

  datatype SExp =
    | Nil
    | Pair(car: SExp, cdr: SExp)
    | Symbol(name: cstring)
    | Str(value: string)
    | Int(number: int32)
  {
    predicate IsList() {
      Nil? || (Pair? && cdr.IsList())
    }

    /** The elements a const_iterator visits: an improper tail is not one. */
    function Elements(): seq<SExp> {
      if Pair? then [car] + cdr.Elements() else []
    }
  }

  /** items[0], items[1], ... consed onto tail. */
  function Chain(items: seq<SExp>, tail: SExp): SExp {
    if items == [] then tail else Pair(items[0], Chain(items[1..], tail))
  }

  // ----- Printing

  /** Characters a symbol may contain and still be printed without bars:
      letters, digits and + - * / @ $ % ^ & _ = < > ~ . ? ! [ ] { } */
  predicate IsSymbolChar(c: char) {
    || c == '!' || '$' <= c <= '&' || '*' <= c <= '+' || '-' <= c <= '9'
    || '<' <= c <= '[' || ']' <= c <= '_' || 'a' <= c <= '{' || '}' <= c <= '~'
  }

  /** Letters, digits and + - * / @ $ % ^ & _ = < > ~ . ? ! [ ] { } are the characters
      that may stand in a symbol without bars. */
  lemma SymbolCharExactly(c: char)
    ensures IsSymbolChar(c) <==>
      || 'a' <= c <= 'z' || 'A' <= c <= 'Z' || '0' <= c <= '9'
      || c == '+' || c == '-' || c == '*' || c == '/' || c == '@' || c == '$' || c == '%' || c == '^' || c == '&'
      || c == '_' || c == '=' || c == '<' || c == '>' || c == '~' || c == '.' || c == '?' || c == '!'
      || c == '[' || c == ']' || c == '{' || c == '}'
  {
  }

  predicate AllPeriods(s: string) {
    forall k :: 0 <= k < |s| ==> s[k] == '.'
  }

  predicate NeedsQuoting(name: string) {
    IntToken(name) || AllPeriods(name) || exists k :: 0 <= k < |name| && !IsSymbolChar(name[k])
  }

  function CEscapeChar(c: char): (s: string)
    ensures |s| == 1 || (|s| == 2 && s[0] == '\\' && s[1] != NUL)
  {
    match c
    case '\n' => "\\n"
    case '\r' => "\\r"
    case '\t' => "\\t"
    case '\"' => "\\\""
    case '\'' => "\\\'"
    case '\\' => "\\\\"
    case _ => [c]
  }

  function CEscapeAll(s: string): string {
    if s == "" then "" else CEscapeChar(s[0]) + CEscapeAll(s[1..])
  }

  function EscapeBars(s: string): string {
    if s == "" then "" else (if s[0] == '|' then "\\|" else [s[0]]) + EscapeBars(s[1..])
  }

  function Repr(e: SExp): string
    decreases e, 1
  {
    match e
    case Nil => "nil"
    case Pair(car, cdr) => "(" + ReprWithoutParens(e) + ")"
    case Symbol(name) => if NeedsQuoting(name) then "|" + EscapeBars(name) + "|" else name
    case Str(value) => "\"" + CEscapeAll(CStr(value)) + "\""
    case Int(number) => Decimal(number)
  }

  function ReprWithoutParens(e: SExp): string
    requires e.Pair?
    decreases e, 0
  {
    Repr(e.car) + if e.cdr.Nil? then ""
                  else if e.cdr.Pair? then " " + ReprWithoutParens(e.cdr)
                  else " . " + Repr(e.cdr)
  }

  // ----- Reading

  /** What a reading function does with the text under the cursor: a value and
      the text it leaves, NULL, a failed CHECK, or undefined behaviour (reading
      past the terminator, or an integer token outside the int range). */
  datatype Reading<+T> = Ok(value: T, rest: string) | Null | Abort | Undefined

  /** Text up to the closing delimiter, a backslash taking the next character literally. */
  function ReadDelimited(delimiter: char, s: string): (r: Reading<cstring>)
    ensures r.Ok? ==> |r.rest| < |s|
    ensures !r.Abort? && !r.Undefined?
  {
    if Peek(s) == NUL then Null
    else if s[0] == delimiter then Ok("", s[1..])
    else if s[0] == '\\' then
      if Peek(s[1..]) == NUL then Null else Prepend(s[1], ReadDelimited(delimiter, s[2..]))
    else Prepend(s[0], ReadDelimited(delimiter, s[1..]))
  }

  function Prepend(c: char, r: Reading<cstring>): Reading<cstring>
    requires c != NUL
  {
    match r
    case Ok(value, rest) => Ok([c] + value, rest)
    case _ => r
  }

  datatype Token = Token(text: cstring, escaped: bool, rest: string) | Overrun

  /** Whitespace, a closing parenthesis or the end of the text. */
  predicate EndsToken(s: string) {
    Peek(s) == NUL || IsSpace(Peek(s)) || Peek(s) == ')'
  }

  function ScanToken(s: string): (r: Token)
    ensures r.Token? ==> |r.rest| <= |s| && EndsToken(r.rest)
    ensures r.Token? && r.text != "" ==> |r.rest| < |s|
  {
    if EndsToken(s) then Token("", false, s)
    else if s[0] == '\\' then
      if Peek(s[1..]) == NUL then Overrun
      else match ScanToken(s[2..])
        case Token(text, _, rest) => Token([s[1]] + text, true, rest)
        case Overrun => Overrun
    else match ScanToken(s[1..])
      case Token(text, escaped, rest) => Token([s[0]] + text, escaped, rest)
      case Overrun => Overrun
  }

  /** The atom an unquoted token stands for. */
  function Classify(text: cstring, escaped: bool, rest: string): (r: Reading<SExp>)
    requires text != ""
    ensures r.Ok? ==> r.rest == rest && (r.value.Nil? || r.value.Symbol? || r.value.Int?)
  {
    if !escaped && IntToken(text) then
      if -INT_LIMIT <= TokenValue(text) < INT_LIMIT then Ok(Int(TokenValue(text)), rest) else Undefined
    else if text == "nil" then Ok(Nil, rest)
    else if AllPeriods(text) then Null
    else Ok(Symbol(text), rest)
  }

  function ReadToken(s: string): (r: Reading<SExp>)
    ensures r.Ok? ==> |r.rest| < |s|
    ensures r.Ok? ==> !r.value.Pair? && !r.value.Str?
  {
    match ScanToken(s)
    case Overrun => Undefined
    case Token(text, escaped, rest) => if text == "" then Abort else Classify(text, escaped, rest)
  }

  function ToStr(r: Reading<cstring>): Reading<SExp> {
    match r case Ok(value, rest) => Ok(Str(value), rest) case Null => Null case Abort => Abort case Undefined => Undefined
  }

  function ToSymbol(r: Reading<cstring>): Reading<SExp> {
    match r case Ok(value, rest) => Ok(Symbol(value), rest) case Null => Null case Abort => Abort case Undefined => Undefined
  }

  /** One expression: a tree is returned only after at least one character was read. */
  function ReadSexp(s: string): (r: Reading<SExp>)
    ensures r.Ok? ==> |r.rest| < |s|
    decreases |s|, 0
  {
    var t := SkipSpace(s);
    if Peek(t) == NUL then Null
    else if t[0] == '(' then ReadItems(SkipSpace(t[1..]), [], false)
    else if t[0] == '"' then ToStr(ReadDelimited('"', t[1..]))
    else if t[0] == '|' then ToSymbol(ReadDelimited('|', t[1..]))
    else ReadToken(t)
  }

  /** A period with whitespace behind it announces the tail of an improper list. */
  predicate AtDot(s: string) {
    |s| >= 2 && s[0] == '.' && IsSpace(s[1])
  }

  /** An element of a list: the period of any other token is skipped. */
  function ReadItem(s: string): (r: Reading<SExp>)
    ensures r.Ok? ==> |r.rest| < |s|
    decreases |s|, 1
  {
    ReadSexp(if Peek(s) == '.' then s[1..] else s)
  }

  /** The rest of a list whose elements so far are `items`. */
  function ReadItems(s: string, items: seq<SExp>, improper: bool): (r: Reading<SExp>)
    ensures r.Ok? ==> |r.rest| < |s|
    decreases |s|, 2
  {
    if Peek(s) == ')' then Ok(BuildList(items, improper), s[1..])
    else if AtDot(s) then ReadItems(SkipSpace(s[2..]), items, true)
    else match ReadItem(s)
      case Ok(item, rest) => ReadItems(SkipSpace(rest), items + [item], improper)
      case Null => Null
      case Abort => Abort
      case Undefined => Undefined
  }

  function BuildList(items: seq<SExp>, improper: bool): SExp {
    if improper && |items| >= 2 then Chain(items[..|items| - 1], items[|items| - 1])
    else Chain(items, Nil)
  }

  // ----- The program's own methods

  /** The string that the printing methods append to. */
  class StringBuffer {
    var text: string

    constructor ()
      ensures text == ""
    {
      text := "";
    }

    method Append(s: string)
      modifies this
      ensures text == old(text) + s
    {
      text := text + s;
    }
  }

  method CEscape(srcString: string) returns (buffer: string)
    ensures buffer == CEscapeAll(CStr(srcString))
  {
    hide CEscapeAll, CEscapeChar, CStr;
    buffer := "";
    var src := CStr(srcString);
    EscapedNothing();
    Neutral(CEscapeAll(src));
    while src != ""
      invariant CEscapeAll(CStr(srcString)) == buffer + CEscapeAll(src)
      decreases |src|
    {
      EscapedNext(src);
      Associative(buffer, CEscapeChar(src[0]), CEscapeAll(src[1..]));
      buffer := buffer + CEscapeChar(src[0]);
      src := src[1..];
    }
    Neutral(buffer);
  }

  lemma EscapedNothing()
    ensures CEscapeAll("") == ""
  {
  }

  lemma EscapedNext(s: string)
    requires s != ""
    ensures CEscapeAll(s) == CEscapeChar(s[0]) + CEscapeAll(s[1..])
  {
  }

  method TokenIsAllPeriods(str: cstring) returns (r: bool)
    ensures r == AllPeriods(str)
  {
    var k := 0;
    while k < |str|
      invariant 0 <= k <= |str| && forall j :: 0 <= j < k ==> str[j] == '.'
    {
      if str[k] != '.' {
        return false;
      }
      k := k + 1;
    }
    r := true;
  }

  /** What a symbol finds out about its name when it is made. */
  method FindNeedsQuoting(name: cstring) returns (needsQuoting: bool)
    ensures needsQuoting == NeedsQuoting(name)
  {
    needsQuoting := false;
    var isInteger := IsIntToken(name);
    var isPeriods := TokenIsAllPeriods(name);
    if isInteger || isPeriods {
      return true;
    }
    var k := 0;
    while k < |name|
      invariant 0 <= k <= |name|
      invariant needsQuoting <==> exists j :: 0 <= j < k && !IsSymbolChar(name[j])
    {
      if !IsSymbolChar(name[k]) {
        needsQuoting := true;
      }
      k := k + 1;
    }
  }

  method WriteQuotedSymbol(name: cstring, str: StringBuffer)
    modifies str
    ensures str.text == old(str.text) + "|" + EscapeBars(name) + "|"
  {
    str.Append("|");
    ghost var start := str.text;
    var k := 0;
    while k < |name|
      invariant 0 <= k <= |name|
      invariant start + EscapeBars(name) == str.text + EscapeBars(name[k..])
    {
      ghost var before := str.text;
      if name[k] == '|' {
        str.Append("\\");
      }
      str.Append([name[k]]);
      assert str.text == before + if name[k] == '|' then "\\|" else [name[k]];
      assert name[k..][1..] == name[k + 1..];
      k := k + 1;
    }
    str.Append("|");
  }

  method WriteAtom(e: SExp, str: StringBuffer)
    requires !e.Pair?
    modifies str
    ensures str.text == old(str.text) + Repr(e)
  {
    match e
    case Nil =>
      str.Append("nil");
    case Symbol(name) =>
      var needsQuoting := FindNeedsQuoting(name);
      if needsQuoting {
        WriteQuotedSymbol(name, str);
        Associate(old(str.text), "|", EscapeBars(name), "|");
      } else {
        str.Append(name);
      }
    case Str(value) =>
      str.Append("\"");
      var escaped := CEscape(value);
      str.Append(escaped);
      str.Append("\"");
      Associate(old(str.text), "\"", escaped, "\"");
    case Int(number) =>
      var digits := FastItoa(number);
      str.Append(digits);
  }

  lemma Associate(a: string, b: string, c: string, d: string)
    ensures a + b + c + d == a + (b + c + d)
  {
  }

  method WriteRepr(e: SExp, str: StringBuffer)
    modifies str
    ensures str.text == old(str.text) + Repr(e)
    decreases e, 1
  {
    if e.Pair? {
      str.Append("(");
      WriteReprWithoutParens(e, str);
      str.Append(")");
      Associate(old(str.text), "(", ReprWithoutParens(e), ")");
    } else {
      WriteAtom(e, str);
    }
  }

  method WriteReprWithoutParens(e: SExp, str: StringBuffer)
    requires e.Pair?
    modifies str
    ensures str.text == old(str.text) + ReprWithoutParens(e)
    decreases e, 0
  {
    hide Repr, ReprWithoutParens;
    ReprOfPair(e, str.text);
    WriteRepr(e.car, str);
    if !e.cdr.Nil? {
      if e.cdr.Pair? {
        str.Append(" ");
        WriteReprWithoutParens(e.cdr, str);
      } else {
        str.Append(" . ");
        WriteRepr(e.cdr, str);
      }
    }
  }

  /** The printed elements of a pair behind some text, piece by piece. */
  lemma ReprOfPair(e: SExp, text: string)
    requires e.Pair?
    ensures text + ReprWithoutParens(e)
         == if e.cdr.Nil? then text + Repr(e.car)
            else if e.cdr.Pair? then text + Repr(e.car) + " " + ReprWithoutParens(e.cdr)
            else text + Repr(e.car) + " . " + Repr(e.cdr)
  {
    if e.cdr.Nil? {
      assert Repr(e.car) + "" == Repr(e.car);
    } else if e.cdr.Pair? {
      Associate(text, Repr(e.car), " ", ReprWithoutParens(e.cdr));
    } else {
      Associate(text, Repr(e.car), " . ", Repr(e.cdr));
    }
  }

  /** One-way iteration over a NUL-terminated text. */
  class CharacterIterator {
    const text: cstring
    var cursor: nat

    ghost predicate Valid()
      reads this
    {
      cursor <= |text|
    }

    /** The text from the cursor up to the terminator. */
    function Left(): string
      requires Valid()
      reads this
    {
      text[cursor..]
    }

    constructor (text: cstring)
      ensures Valid() && Left() == text && this.text == text
    {
      this.text := text;
      cursor := 0;
    }

    method Current() returns (c: char)
      requires Valid()
      ensures c == Peek(Left())
    {
      c := if cursor < |text| then text[cursor] else NUL;
    }

    /** Moving on from the terminator would be undefined. */
    method Advance()
      requires Valid() && Left() != ""
      modifies this
      ensures Valid() && Left() == old(Left())[1..]
    {
      cursor := cursor + 1;
    }

    method SkipWhitespace()
      requires Valid()
      modifies this
      ensures Valid() && Left() == SkipSpace(old(Left()))
    {
      var c := Current();
      while IsSpace(c)
        invariant Valid() && c == Peek(Left())
        invariant SkipSpace(Left()) == SkipSpace(old(Left()))
        decreases |text| - cursor
      {
        Advance();
        c := Current();
      }
    }
  }

  /** The result of a reading method that leaves the rest under the cursor. */
  datatype Parsed<+T> = Tree(value: T) | NoTree | CheckFailed | OutOfBounds

  /** `p` and the cursor of `it` are what the reading `r` describes. */
  ghost predicate Agrees<T>(p: Parsed<T>, it: CharacterIterator, r: Reading<T>)
    requires it.Valid()
    reads it
  {
    match r
    case Ok(value, rest) => p == Tree(value) && it.Left() == rest
    case Null => p.NoTree?
    case Abort => p.CheckFailed?
    case Undefined => p.OutOfBounds?
  }

  method FillWithDelimitedString(delimiter: char, it: CharacterIterator) returns (p: Parsed<cstring>)
    requires it.Valid() && delimiter != NUL && Peek(it.Left()) == delimiter
    modifies it
    ensures it.Valid() && Agrees(p, it, ReadDelimited(delimiter, old(it.Left())[1..]))
  {
    it.Advance();
    ghost var start := it.Left();
    var str: cstring := "";
    var c := it.Current();
    PrependNothing(ReadDelimited(delimiter, start));
    while c != delimiter
      invariant it.Valid() && c == Peek(it.Left())
      invariant ReadDelimited(delimiter, start) == PrependAll(str, ReadDelimited(delimiter, it.Left()))
      decreases |it.text| - it.cursor
    {
      if c == NUL {
        return NoTree;
      }
      if c == '\\' {
        it.Advance();
        c := it.Current();
        if c == NUL {
          return NoTree;
        }
      }
      PrependAllStep(str, c, ReadDelimited(delimiter, it.Left()[1..]));
      str := str + [c];
      it.Advance();
      c := it.Current();
    }
    assert str + "" == str;
    it.Advance();
    p := Tree(str);
  }

  ghost function PrependAll(s: cstring, r: Reading<cstring>): Reading<cstring> {
    match r
    case Ok(value, rest) => Ok(s + value, rest)
    case _ => r
  }

  lemma PrependNothing(r: Reading<cstring>)
    ensures PrependAll("", r) == r
  {
    if r.Ok? { assert "" + r.value == r.value; }
  }

  lemma PrependAllStep(s: cstring, c: char, r: Reading<cstring>)
    requires c != NUL
    ensures PrependAll(s, Prepend(c, r)) == PrependAll(s + [c], r)
  {
    if r.Ok? { assert s + ([c] + r.value) == s + [c] + r.value; }
  }

  /** The characters of an unquoted token, and whether any was escaped. */
  method ScanUnquotedToken(it: CharacterIterator) returns (p: Parsed<cstring>, hasEscapedChar: bool)
    requires it.Valid()
    modifies it
    ensures it.Valid()
    ensures match ScanToken(old(it.Left()))
            case Overrun => p.OutOfBounds?
            case Token(text, escaped, rest) => p == Tree(text) && hasEscapedChar == escaped && it.Left() == rest
  {
    ghost var whole := ScanToken(it.Left());
    var token: cstring := "";
    hasEscapedChar := false;
    var c := it.Current();
    ExtendNothing(whole);
    while !(IsSpace(c) || c == ')' || c == NUL)
      invariant it.Valid() && c == Peek(it.Left())
      invariant whole == ExtendToken(token, hasEscapedChar, ScanToken(it.Left()))
      decreases |it.text| - it.cursor
    {
      ghost var escapedBefore := hasEscapedChar;
      if c == '\\' {
        hasEscapedChar := true;
        it.Advance();
        c := it.Current();
        if c == NUL {
          return OutOfBounds, hasEscapedChar;
        }
      }
      ExtendTokenStep(token, c, escapedBefore, hasEscapedChar, ScanToken(it.Left()[1..]));
      token := token + [c];
      it.Advance();
      c := it.Current();
    }
    assert token + "" == token;
    p := Tree(token);
  }

  ghost function ExtendToken(text: cstring, escaped: bool, t: Token): Token {
    match t
    case Token(more, also, rest) => Token(text + more, escaped || also, rest)
    case Overrun => Overrun
  }

  lemma ExtendNothing(t: Token)
    ensures ExtendToken("", false, t) == t
  {
    if t.Token? { assert "" + t.text == t.text; }
  }

  lemma ExtendTokenStep(s: cstring, c: char, escaped: bool, now: bool, t: Token)
    requires c != NUL && (escaped ==> now)
    ensures t.Token? ==>
              ExtendToken(s, escaped, Token([c] + t.text, (now && !escaped) || t.escaped, t.rest)) == ExtendToken(s + [c], now, t)
  {
    if t.Token? { assert s + ([c] + t.text) == s + [c] + t.text; }
  }

  method ParseUnquotedToken(it: CharacterIterator) returns (p: Parsed<SExp>)
    requires it.Valid()
    modifies it
    ensures it.Valid() && Agrees(p, it, ReadToken(old(it.Left())))
  {
    var scanned, hasEscapedChar := ScanUnquotedToken(it);
    if !scanned.Tree? {
      return OutOfBounds;
    }
    var token := scanned.value;
    if token == "" {
      return CheckFailed;
    }
    var isInteger := IsIntToken(token);
    var isPeriods := TokenIsAllPeriods(token);
    if !hasEscapedChar && isInteger {
      var v := TokenValue(token);
      p := if -INT_LIMIT <= v < INT_LIMIT then Tree(Int(v)) else OutOfBounds;
    } else if token == "nil" {
      p := Tree(Nil);
    } else if isPeriods {
      p := NoTree;
    } else {
      p := Tree(Symbol(token));
    }
  }

  method ParseSexp(it: CharacterIterator) returns (p: Parsed<SExp>)
    requires it.Valid()
    modifies it
    ensures it.Valid() && Agrees(p, it, ReadSexp(old(it.Left())))
    decreases |it.Left()|, 1
  {
    it.SkipWhitespace();
    var c := it.Current();
    if c == '(' {
      p := ParseList(it);
    } else if c == '"' || c == '|' {
      var name := FillWithDelimitedString(c, it);
      match name {
        case Tree(text) => p := Tree(if c == '"' then Str(text) else Symbol(text));
        case NoTree => p := NoTree;
        case CheckFailed => p := CheckFailed;
        case OutOfBounds => p := OutOfBounds;
      }
    } else if c == NUL {
      p := NoTree;
    } else {
      p := ParseUnquotedToken(it);
    }
  }

  method ParseList(it: CharacterIterator) returns (p: Parsed<SExp>)
    requires it.Valid() && Peek(it.Left()) == '('
    modifies it
    ensures it.Valid() && Agrees(p, it, ReadItems(SkipSpace(old(it.Left())[1..]), [], false))
    decreases |it.Left()|, 0
  {
    it.Advance();
    it.SkipWhitespace();
    ghost var whole := ReadItems(it.Left(), [], false);
    ghost var start := |it.Left()|;
    var isImproperList := false;
    var items: seq<SExp> := [];
    var c := it.Current();
    while c != ')'
      invariant it.Valid() && c == Peek(it.Left())
      invariant |it.Left()| <= start
      invariant whole == ReadItems(it.Left(), items, isImproperList)
      decreases |it.Left()|
    {
      var pushItem := true;
      if c == '.' {
        it.Advance();
        var next := it.Current();
        if IsSpace(next) {
          isImproperList := true;
          it.Advance();
          pushItem := false;
        }
      }
      if pushItem {
        var nextItem := ParseSexp(it);
        if !nextItem.Tree? {
          return nextItem;
        }
        items := items + [nextItem.value];
      }
      it.SkipWhitespace();
      c := it.Current();
    }
    it.Advance();

    var answer := ConsUp(items, isImproperList);
    p := Tree(answer);
  }

  /** Builds the cons cells of a list iteratively, starting from the tail. */
  method ConsUp(items: seq<SExp>, improper: bool) returns (answer: SExp)
    ensures answer == BuildList(items, improper)
  {
    var left := items;
    answer := Nil;
    if improper && |items| >= 2 {
      answer := items[|items| - 1];
      left := items[..|items| - 1];
    }
    while |left| > 0
      invariant Chain(left, answer) == BuildList(items, improper)
    {
      ChainLast(left, answer);
      answer := Pair(left[|left| - 1], answer);
      left := left[..|left| - 1];
    }
  }

  lemma {:induction false} ChainLast(items: seq<SExp>, tail: SExp)
    requires items != []
    ensures Chain(items, tail) == Chain(items[..|items| - 1], Pair(items[|items| - 1], tail))
  {
    if |items| > 1 {
      ChainLast(items[1..], tail);
      assert items[1..][..|items| - 2] == items[..|items| - 1][1..];
    }
  }

  /** SExpression::Parse: the first expression of a text; what follows is ignored. */
  method Parse(sexp: string) returns (p: Parsed<SExp>)
    ensures match ReadSexp(CStr(sexp))
            case Ok(value, _) => p == Tree(value)
            case Null => p.NoTree?
            case Abort => p.CheckFailed?
            case Undefined => p.OutOfBounds?
  {
    var it := new CharacterIterator(CStr(sexp));
    p := ParseSexp(it);
  }
}
