/** The Python client's s-expressions (gtags.py): string_lisp_repr and parse_sexp,
    read against each other and against the server's reader and printer. */
module PythonClient {
  import opened CStrings
  import opened Sequences
  import opened Numerals
  import opened SExpressions

  datatype PyValue = PyString(s: string) | PyInt(n: int) | PySymbol(name: string) | PyList(elements: seq<PyValue>)

  /** What a parse gives: a value and the text behind it, or UnparseableSexp. */
  datatype PyReading = Parsed(value: PyValue, rest: string) | Unparseable

  // ----- Printing a string

  function LispEscape(s: string): string {
    if s == "" then "" else (if s[0] == '\\' || s[0] == '"' then ['\\', s[0]] else [s[0]]) + LispEscape(s[1..])
  }

  function LispRepr(s: string): string {
    "\"" + LispEscape(s) + "\""
  }

  method StringLispRepr(s: string) returns (retval: string)
    ensures retval == LispRepr(s)
  {
    retval := "\"";
    var k := 0;
    while k < |s|
      invariant 0 <= k <= |s|
      invariant retval + LispEscape(s[k..]) == "\"" + LispEscape(s)
    {
      ghost var before := retval;
      DropNext(s, k);
      if s[k] == '\\' || s[k] == '"' {
        retval := retval + "\\";
      }
      retval := retval + [s[k]];
      assert retval == before + if s[k] == '\\' || s[k] == '"' then ['\\', s[k]] else [s[k]];
      Associative(before, if s[k] == '\\' || s[k] == '"' then ['\\', s[k]] else [s[k]], LispEscape(s[k + 1..]));
      k := k + 1;
    }
    Neutral(retval);
    retval := retval + "\"";
  }

  // ----- Reading

  function SkipBlanks(s: string): (r: string)
    ensures |r| <= |s| && (r != "" ==> r[0] != ' ')
  {
    if s != "" && s[0] == ' ' then SkipBlanks(s[1..]) else s
  }

  /** Text before the closing quote, escapes and all, and the text behind it. */
  function ScanQuoted(s: string): (r: Option<(string, string)>)
    ensures r.Some? ==> |r.value.1| < |s|
  {
    if s == "" then None
    else if s[0] == '"' then Some(("", s[1..]))
    else if s[0] == '\\' then if |s| == 1 then None else Behind(s[..2], ScanQuoted(s[2..]))
    else Behind(s[..1], ScanQuoted(s[1..]))
  }

  function Behind(head: string, r: Option<(string, string)>): Option<(string, string)> {
    match r case None => None case Some((raw, rest)) => Some((head + raw, rest))
  }

  /** None: the text ends in a backslash. Escapes other than \\, \" and \t vanish. */
  function Unescape(s: string): Option<string> {
    if s == "" then Some("")
    else if s[0] == '\\' then if |s| == 1 then None else Prefixed(Unescaped(s[1]), Unescape(s[2..]))
    else Prefixed(s[..1], Unescape(s[1..]))
  }

  function Unescaped(c: char): string {
    if c == '\\' || c == '"' then [c] else if c == 't' then "\t" else ""
  }

  function Prefixed(head: string, r: Option<string>): Option<string> {
    match r case None => None case Some(tail) => Some(head + tail)
  }

  function ScanDigits(s: string): (r: (string, string))
    ensures AllDigits(r.0) && |r.0| + |r.1| == |s|
    ensures s != "" && IsDigit(s[0]) ==> r.0 != ""
  {
    if s == "" || !IsDigit(s[0]) then ("", s) else var (digits, rest) := ScanDigits(s[1..]); (s[..1] + digits, rest)
  }

  function ScanSymbol(s: string): (r: Option<(string, string)>)
    ensures r.Some? ==> |r.value.1| <= |s|
    ensures r.Some? && s != "" && (IsSymbolChar(s[0]) || s[0] == '\\') ==> |r.value.1| < |s|
  {
    if s == "" || !(IsSymbolChar(s[0]) || s[0] == '\\') then Some(("", s))
    else if s[0] == '\\' then if |s| == 1 then None else Behind(s[..2], ScanSymbol(s[2..]))
    else Behind(s[..1], ScanSymbol(s[1..]))
  }

  function ReadString(s: string): (r: PyReading)
    ensures r.Parsed? ==> |r.rest| < |s|
  {
    match ScanQuoted(s)
    case None => Unparseable
    case Some((raw, rest)) => match Unescape(raw) { case None => Unparseable case Some(v) => Parsed(PyString(v), rest) }
  }

  function ReadInteger(s: string): (r: PyReading)
    requires s != "" && IsDigit(s[0])
    ensures r.Parsed? ==> |r.rest| < |s|
  {
    Parsed(PyInt(DigitsValue(ScanDigits(s).0)), ScanDigits(s).1)
  }

  function ReadSymbol(s: string): (r: PyReading)
    requires s != "" && (IsSymbolChar(s[0]) || s[0] == '\\')
    ensures r.Parsed? ==> |r.rest| < |s|
  {
    match ScanSymbol(s)
    case None => Unparseable
    case Some((raw, rest)) => match Unescape(raw) { case None => Unparseable case Some(v) => Parsed(PySymbol(v), rest) }
  }

  function Read(s: string): (r: PyReading)
    ensures r.Parsed? ==> |r.rest| < |s|
    decreases |s|, 0
  {
    var t := SkipBlanks(s);
    if t == "" then Unparseable
    else if t[0] == '(' then ReadElements(t[1..], [])
    else if t[0] == '"' then ReadString(t[1..])
    else if IsDigit(t[0]) then ReadInteger(t)
    else if IsSymbolChar(t[0]) || t[0] == '\\' then ReadSymbol(t)
    else Unparseable
  }

  /** The rest of a list. Periods between elements are skipped, wherever they stand. */
  function ReadElements(s: string, elements: seq<PyValue>): (r: PyReading)
    ensures r.Parsed? ==> |r.rest| < |s|
    decreases |s|, 1
  {
    var t := SkipBlanks(s);
    if t == "" then Unparseable
    else if t[0] == ')' then Parsed(PyList(elements), t[1..])
    else if t[0] == '.' then ReadElements(t[1..], elements)
    else match Read(t)
      case Unparseable => Unparseable
      case Parsed(v, rest) => ReadElements(rest, elements + [v])
  }

  // ----- The program's own methods

  method UnescapeString(str: string) returns (r: Option<string>)
    ensures r == Unescape(str)
  {
    var chars := "";
    var i := 0;
    PrefixedNothing(Unescape(str));
    while i < |str|
      invariant 0 <= i <= |str|
      invariant Unescape(str) == Prefixed(chars, Unescape(str[i..]))
    {
      DropNext(str, i);
      ghost var before := chars;
      if str[i] == '\\' {
        if i == |str| - 1 {
          return None;
        }
        if str[i + 1] == '\\' || str[i + 1] == '"' {
          chars := chars + [str[i + 1]];
        } else if str[i + 1] == 't' {
          chars := chars + "\t";
        }
        Neutral(before);
        assert chars == before + Unescaped(str[i + 1]);
        assert str[i..][2..] == str[i + 2..];
        PrefixedTwice(before, Unescaped(str[i + 1]), Unescape(str[i + 2..]));
        i := i + 1;
      } else {
        chars := chars + [str[i]];
        assert str[i..][..1] == [str[i]];
        PrefixedTwice(before, [str[i]], Unescape(str[i + 1..]));
      }
      i := i + 1;
    }
    Neutral(chars);
    r := Some(chars);
  }

  lemma PrefixedTwice(a: string, b: string, r: Option<string>)
    ensures Prefixed(a, Prefixed(b, r)) == Prefixed(a + b, r)
  {
    if r.Some? { Associative(a, b, r.value); }
  }

  lemma BehindTwice(a: string, b: string, r: Option<(string, string)>)
    ensures Behind(a, Behind(b, r)) == Behind(a + b, r)
  {
    if r.Some? { Associative(a, b, r.value.0); }
  }

  lemma PrefixedNothing(r: Option<string>)
    ensures Prefixed("", r) == r
  {
    if r.Some? { Neutral(r.value); }
  }

  lemma BehindNothing(r: Option<(string, string)>)
    ensures Behind("", r) == r
  {
    if r.Some? { Neutral(r.value.0); }
  }

  /** A parse that has come to index i of the input, or has raised UnparseableSexp. */
  predicate Agrees(str: string, r: Option<(nat, PyValue)>, p: PyReading) {
    match p
    case Unparseable => r.None?
    case Parsed(v, rest) => r.Some? && r.value.0 <= |str| && r.value.1 == v && rest == str[r.value.0..]
  }

  lemma Slices(str: string, a: nat, b: nat, c: nat)
    requires a <= b <= c <= |str|
    ensures str[a..b] + str[b..c] == str[a..c] && str[b..][..c - b] == str[b..c] && str[b..][c - b..] == str[c..]
  {
  }

  lemma QuotedNext(str: string, i: nat)
    requires i < |str| && str[i] != '"'
    ensures var k := if str[i] == '\\' then 2 else 1;
      ScanQuoted(str[i..]) == if i + k > |str| then None else Behind(str[i..i + k], ScanQuoted(str[i + k..]))
  {
    Slices(str, i, i, i + 1);
    if i + 2 <= |str| { Slices(str, i, i, i + 2); }
  }

  lemma SymbolNext(str: string, i: nat)
    requires i < |str| && (IsSymbolChar(str[i]) || str[i] == '\\')
    ensures var k := if str[i] == '\\' then 2 else 1;
      ScanSymbol(str[i..]) == if i + k > |str| then None else Behind(str[i..i + k], ScanSymbol(str[i + k..]))
  {
    Slices(str, i, i, i + 1);
    if i + 2 <= |str| { Slices(str, i, i, i + 2); }
  }

  lemma AtQuote(str: string, i: nat)
    requires i < |str| && str[i] == '"'
    ensures ScanQuoted(str[i..]) == Some(("", str[i + 1..]))
  {
    DropNext(str, i);
  }

  lemma AtSymbolEnd(str: string, i: nat)
    requires i <= |str| && (i < |str| ==> !(IsSymbolChar(str[i]) || str[i] == '\\'))
    ensures ScanSymbol(str[i..]) == Some(("", str[i..]))
  {
  }

  /** The branch of parse_sexp_helper for string literals; start is where the literal starts. */
  method ParseString(str: string, start: nat) returns (r: Option<(nat, PyValue)>)
    requires start < |str| && str[start] == '"'
    ensures Agrees(str, r, ReadString(str[start + 1..]))
    ensures r.Some? ==> r.value.0 > start
  {
    var i := start + 1;
    if i == |str| {
      return None;
    }
    hide ScanQuoted, Unescape;
    BehindNothing(ScanQuoted(str[i..]));
    assert str[start + 1..i] == "";
    while str[i] != '"'
      invariant start + 1 <= i < |str|
      invariant ScanQuoted(str[start + 1..]) == Behind(str[start + 1..i], ScanQuoted(str[i..]))
      decreases |str| - i
    {
      ghost var before := i;
      QuotedNext(str, i);
      if str[i] == '\\' {
        i := i + 1;
        if i == |str| {
          return None;
        }
      }
      i := i + 1;
      Slices(str, start + 1, before, i);
      BehindTwice(str[start + 1..before], str[before..i], ScanQuoted(str[i..]));
      if i == |str| {
        NothingQuoted();
        return None;
      }
    }
    AtQuote(str, i);
    Neutral(str[start + 1..i]);
    var s := UnescapeString(str[start + 1..i]);
    if s.None? {
      return None;
    }
    r := Some((i + 1, PyString(s.value)));
  }

  lemma NothingQuoted()
    ensures ScanQuoted("") == None
  {
  }

  method ParseInteger(str: string, start: nat) returns (r: Option<(nat, PyValue)>)
    requires start < |str| && IsDigit(str[start])
    ensures Agrees(str, r, ReadInteger(str[start..]))
    ensures r.Some? ==> r.value.0 > start
  {
    var i := start;
    Neutral(ScanDigits(str[start..]).0);
    assert str[start..start] == "";
    while i < |str| && IsDigit(str[i])
      invariant start <= i <= |str|
      invariant ScanDigits(str[start..]) == (str[start..i] + ScanDigits(str[i..]).0, ScanDigits(str[i..]).1)
    {
      DropNext(str, i);
      Associative(str[start..i], [str[i]], ScanDigits(str[i + 1..]).0);
      assert str[start..i] + [str[i]] == str[start..i + 1];
      assert str[i..][..1] == [str[i]];
      i := i + 1;
    }
    Neutral(str[start..i]);
    r := Some((i, PyInt(DigitsValue(str[start..i]))));
  }

  method ParseSymbol(str: string, start: nat) returns (r: Option<(nat, PyValue)>)
    requires start < |str| && (IsSymbolChar(str[start]) || str[start] == '\\')
    ensures Agrees(str, r, ReadSymbol(str[start..]))
    ensures r.Some? ==> r.value.0 > start
  {
    hide ScanSymbol, Unescape;
    var i := start;
    BehindNothing(ScanSymbol(str[start..]));
    assert str[start..i] == "";
    while i < |str|
      invariant start <= i <= |str|
      invariant ScanSymbol(str[start..]) == Behind(str[start..i], ScanSymbol(str[i..]))
    {
      ghost var before := i;
      if !(IsSymbolChar(str[i]) || str[i] == '\\') {
        break;
      }
      SymbolNext(str, i);
      if str[i] == '\\' {
        i := i + 1;
        if i == |str| {
          return None;
        }
      }
      i := i + 1;
      Slices(str, start, before, i);
      BehindTwice(str[start..before], str[before..i], ScanSymbol(str[i..]));
    }
    AtSymbolEnd(str, i);
    Neutral(str[start..i]);
    var s := UnescapeString(str[start..i]);
    if s.None? {
      return None;
    }
    r := Some((i, PySymbol(s.value)));
  }

  /** The inner loop over the blanks of a list; None: the input ends in them. */
  method SkipInList(str: string, start: nat) returns (r: Option<nat>)
    requires start < |str|
    ensures r.None? <==> SkipBlanks(str[start..]) == ""
    ensures r.Some? ==> start <= r.value < |str| && str[r.value..] == SkipBlanks(str[start..])
  {
    var i := start;
    while str[i] == ' '
      invariant start <= i < |str|
      invariant SkipBlanks(str[start..]) == SkipBlanks(str[i..])
      decreases |str| - i
    {
      DropNext(str, i);
      i := i + 1;
      if i == |str| {
        return None;
      }
    }
    DropNext(str, i);
    r := Some(i);
  }

  /** Behind the blanks of a list there is its end, a period, or an element. */
  lemma ElementsStep(s: string, t: string, elements: seq<PyValue>)
    requires t == SkipBlanks(s)
    ensures t == "" ==> ReadElements(s, elements) == Unparseable
    ensures t != "" ==> ReadElements(s, elements) == ReadElements(t, elements)
    ensures t != "" && t[0] == '.' ==> ReadElements(s, elements) == ReadElements(t[1..], elements)
    ensures t != "" && t[0] != ')' && t[0] != '.' && Read(t).Unparseable? ==> ReadElements(s, elements) == Unparseable
    ensures t != "" && t[0] != ')' && t[0] != '.' && Read(t).Parsed? ==>
      ReadElements(s, elements) == ReadElements(Read(t).rest, elements + [Read(t).value])
  {
    if t != "" { assert SkipBlanks(t) == t; }
  }

  method ParseList(str: string, start: nat) returns (r: Option<(nat, PyValue)>)
    requires start < |str| && str[start] == '('
    ensures Agrees(str, r, ReadElements(str[start + 1..], []))
    ensures r.Some? ==> r.value.0 > start
    decreases |str| - start, 0
  {
    hide Read, ReadElements, SkipBlanks;
    var elements: seq<PyValue> := [];
    var i := start + 1;
    if i == |str| {
      EndOfElements(elements);
      return None;
    }
    while str[i] != ')'
      invariant start < i < |str|
      invariant ReadElements(str[start + 1..], []) == ReadElements(str[i..], elements)
      decreases |str| - i
    {
      ElementsStep(str[i..], SkipBlanks(str[i..]), elements);
      var skipped := SkipInList(str, i);
      if skipped.None? {
        return None;
      }
      i := skipped.value;
      if str[i] != ')' {
        DropNext(str, i);
        if str[i] == '.' {
          i := i + 1;
        } else {
          var result := ParseSexpHelper(str, i);
          if result.None? {
            return None;
          }
          i := i + result.value.0;
          elements := elements + [result.value.1];
        }
        if i >= |str| {
          EndOfElements(elements);
          return None;
        }
      }
    }
    DropNext(str, i);
    AtClose(str[i..], elements);
    r := Some((i + 1, PyList(elements)));
  }

  lemma EndOfElements(elements: seq<PyValue>)
    ensures ReadElements("", elements) == Unparseable
  {
  }

  lemma AtClose(s: string, elements: seq<PyValue>)
    requires s != "" && s[0] == ')'
    ensures ReadElements(s, elements) == Parsed(PyList(elements), s[1..])
  {
  }

  /** parse_sexp_helper: the number of characters read, and the value. Every index it
      uses is inside the string, on every input. */
  method ParseSexpHelper(str: string, startIndex: nat) returns (r: Option<(nat, PyValue)>)
    requires startIndex <= |str|
    ensures r.Some? ==> 0 < r.value.0 && startIndex + r.value.0 <= |str|
    ensures match Read(str[startIndex..])
            case Unparseable => r.None?
            case Parsed(v, rest) => r.Some? && startIndex + r.value.0 <= |str| && r.value.1 == v && rest == str[startIndex + r.value.0..]
    decreases |str| - startIndex, 1
  {
    var i := startIndex;
    while i < |str| && str[i] == ' '
      invariant startIndex <= i <= |str|
      invariant SkipBlanks(str[startIndex..]) == SkipBlanks(str[i..])
    {
      DropNext(str, i);
      i := i + 1;
    }
    if i == |str| {
      return None;
    }
    DropNext(str, i);
    assert SkipBlanks(str[startIndex..]) == str[i..];
    var read: Option<(nat, PyValue)>;
    if str[i] == '(' {
      read := ParseList(str, i);
    } else if str[i] == '"' {
      read := ParseString(str, i);
    } else if IsDigit(str[i]) {
      read := ParseInteger(str, i);
    } else if IsSymbolChar(str[i]) || str[i] == '\\' {
      read := ParseSymbol(str, i);
    } else {
      return None;
    }
    r := if read.Some? then Some((read.value.0 - startIndex, read.value.1)) else None;
  }

  /** parse_sexp: text behind the first value is ignored. */
  method ParseSexp(str: string) returns (r: Option<PyValue>)
    ensures r == match Read(str) case Unparseable => None case Parsed(v, _) => Some(v)
  {
    TakeAll(str);
    var read := ParseSexpHelper(str, 0);
    r := if read.Some? then Some(read.value.1) else None;
  }
}
