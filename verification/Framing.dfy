/** Texts that are put together from pieces, and the trees the reader makes of them. */
module Framing {
  import opened CStrings
  import opened Sequences
  import opened Numerals
  import opened SExpressions
  import opened RoundTrip

  /** x begins like an expression, and not with a period. */
  predicate Starts(x: string) {
    x != "" && !IsSpace(x[0]) && x[0] != ')' && x[0] != '.' && x[0] != NUL
  }

  /** Wherever a token may end behind it, x is read as e. */
  ghost predicate Denotes(x: string, e: SExp) {
    Starts(x) && forall suffix: string :: EndsToken(suffix) ==> ReadSexp(x + suffix) == Ok(e, suffix)
  }

  /** x is read as e whatever follows. */
  ghost predicate DenotesAnywhere(x: string, e: SExp) {
    Starts(x) && forall suffix: string :: ReadSexp(x + suffix) == Ok(e, suffix)
  }

  function All(xs: seq<string>): string {
    if xs == [] then "" else xs[0] + All(xs[1..])
  }

  /** The pieces of a list, with a space between them. */
  function Spaced(xs: seq<string>): string {
    if xs == [] then "" else if |xs| == 1 then xs[0] else xs[0] + " " + Spaced(xs[1..])
  }

  /** The pieces of a list, with a space behind each. */
  function Trailed(xs: seq<string>): string {
    if xs == [] then "" else xs[0] + " " + Trailed(xs[1..])
  }

  ghost predicate AllDenote(xs: seq<string>, es: seq<SExp>) {
    |xs| == |es| && forall k :: 0 <= k < |xs| ==> Denotes(xs[k], es[k])
  }

  lemma AnywhereDenotes(x: string, e: SExp)
    requires DenotesAnywhere(x, e)
    ensures Denotes(x, e)
  {
  }

  /** One element of a list is read, and the whitespace behind it skipped. */
  lemma ItemRead(x: string, e: SExp, left: string, items: seq<SExp>)
    requires Starts(x) && ReadSexp(x + left) == Ok(e, left)
    ensures ReadItems(x + left, items, false) == ReadItems(SkipSpace(left), items + [e], false)
  {
    assert (x + left)[0] == x[0];
  }

  lemma {:induction false} SpacedItems(xs: seq<string>, es: seq<SExp>, suffix: string, items: seq<SExp>)
    requires AllDenote(xs, es)
    ensures ReadItems(Spaced(xs) + ")" + suffix, items, false) == Ok(Chain(items + es, Nil), suffix)
  {
    hide ReadItems, ReadItem, ReadSexp, Chain, Starts;
    if xs == [] {
      Neutral(items);
      assert Spaced(xs) + ")" + suffix == ")" + suffix;
      CloseRead(suffix, items);
    } else {
      assert Denotes(xs[0], es[0]);
      var left := (if |xs| == 1 then "" else " " + Spaced(xs[1..])) + ")" + suffix;
      assert Spaced(xs) + ")" + suffix == xs[0] + left;
      ItemRead(xs[0], es[0], left, items);
      HeadTail(es);
      Associative(items, [es[0]], es[1..]);
      if |xs| == 1 {
        assert left == ")" + suffix;
        Neutral(items + [es[0]]);
        CloseRead(suffix, items + [es[0]]);
      } else {
        SpacedItems(xs[1..], es[1..], suffix, items + [es[0]]);
        var next := Spaced(xs[1..]) + ")" + suffix;
        assert left == " " + next && left[1..] == next;
        SpacedStart(xs[1..], es[1..], suffix);
      }
    }
  }

  lemma SpacedStart(xs: seq<string>, es: seq<SExp>, suffix: string)
    requires AllDenote(xs, es)
    ensures SkipSpace(Spaced(xs) + ")" + suffix) == Spaced(xs) + ")" + suffix
  {
    if xs != [] { assert Denotes(xs[0], es[0]); }
    assert (Spaced(xs) + ")" + suffix)[0] == if xs == [] then ')' else xs[0][0];
  }

  lemma {:induction false} TrailedItems(xs: seq<string>, es: seq<SExp>, suffix: string, items: seq<SExp>)
    requires AllDenote(xs, es)
    ensures ReadItems(Trailed(xs) + ")" + suffix, items, false) == Ok(Chain(items + es, Nil), suffix)
  {
    hide ReadItems, ReadItem, ReadSexp, Chain, Starts;
    if xs == [] {
      Neutral(items);
      assert Trailed(xs) + ")" + suffix == ")" + suffix;
      CloseRead(suffix, items);
    } else {
      assert Denotes(xs[0], es[0]);
      var next := Trailed(xs[1..]) + ")" + suffix;
      var left := " " + next;
      assert Trailed(xs) + ")" + suffix == xs[0] + left;
      ItemRead(xs[0], es[0], left, items);
      HeadTail(es);
      Associative(items, [es[0]], es[1..]);
      TrailedItems(xs[1..], es[1..], suffix, items + [es[0]]);
      assert left[1..] == next;
      TrailedStart(xs[1..], es[1..], suffix);
      assert SkipSpace(left) == next;
    }
  }

  lemma TrailedStart(xs: seq<string>, es: seq<SExp>, suffix: string)
    requires AllDenote(xs, es)
    ensures SkipSpace(Trailed(xs) + ")" + suffix) == Trailed(xs) + ")" + suffix
  {
    var s := Trailed(xs) + ")" + suffix;
    if xs == [] {
      assert s[0] == ')';
    } else {
      assert Denotes(xs[0], es[0]);
      assert s[0] == xs[0][0];
    }
  }

  /** A body in parentheses is a list, and shows where it ends. */
  lemma Parenthesized(body: string, es: seq<SExp>)
    requires forall suffix: string :: SkipSpace(body + ")" + suffix) == body + ")" + suffix
    requires forall suffix: string :: ReadItems(body + ")" + suffix, [], false) == Ok(Chain(es, Nil), suffix)
    ensures DenotesAnywhere("(" + body + ")", Chain(es, Nil))
  {
    var x := "(" + body + ")";
    forall suffix: string
      ensures ReadSexp(x + suffix) == Ok(Chain(es, Nil), suffix)
    {
      assert (x + suffix)[1..] == body + ")" + suffix;
      assert SkipSpace(x + suffix) == x + suffix;
    }
  }

  lemma SpacedList(xs: seq<string>, es: seq<SExp>)
    requires AllDenote(xs, es)
    ensures DenotesAnywhere("(" + Spaced(xs) + ")", Chain(es, Nil))
  {
    forall suffix: string
      ensures SkipSpace(Spaced(xs) + ")" + suffix) == Spaced(xs) + ")" + suffix
      ensures ReadItems(Spaced(xs) + ")" + suffix, [], false) == Ok(Chain(es, Nil), suffix)
    {
      SpacedItems(xs, es, suffix, []);
      Neutral(es);
      SpacedStart(xs, es, suffix);
    }
    Parenthesized(Spaced(xs), es);
  }

  lemma TrailedList(xs: seq<string>, es: seq<SExp>)
    requires AllDenote(xs, es)
    ensures DenotesAnywhere("(" + Trailed(xs) + ")", Chain(es, Nil))
  {
    forall suffix: string
      ensures SkipSpace(Trailed(xs) + ")" + suffix) == Trailed(xs) + ")" + suffix
      ensures ReadItems(Trailed(xs) + ")" + suffix, [], false) == Ok(Chain(es, Nil), suffix)
    {
      TrailedItems(xs, es, suffix, []);
      Neutral(es);
      TrailedStart(xs, es, suffix);
    }
    Parenthesized(Trailed(xs), es);
  }

  // ----- Whitespace

  /** Space, tab, newline, vertical tab, form feed, carriage return. */
  predicate BlankChar(c: char) {
    c == ' ' || c == '\t' || c == '\n' || c == '\U{0B}' || c == '\U{0C}' || c == '\r'
  }

  predicate Blank(w: string) {
    forall k :: 0 <= k < |w| ==> BlankChar(w[k])
  }

  lemma SpaceExactly(c: char)
    ensures IsSpace(c) <==> BlankChar(c)
  {
  }

  lemma {:induction false} BlanksSkipped(w: string, s: string)
    requires Blank(w)
    ensures SkipSpace(w + s) == SkipSpace(s)
  {
    if w == "" {
      Neutral(s);
    } else {
      SpaceExactly(w[0]);
      AppendTail(w, s);
      BlanksSkipped(w[1..], s);
    }
  }

  /** Blanks in front of an expression make no difference. */
  lemma BlankBefore(w: string, s: string)
    requires Blank(w)
    ensures ReadSexp(w + s) == ReadSexp(s)
  {
    BlanksSkipped(w, s);
    SkippedOnce(s);
    assert ReadSexp(s) == ReadSexp(SkipSpace(s));
    assert ReadSexp(w + s) == ReadSexp(SkipSpace(w + s)) by { SkippedOnce(w + s); }
  }

  lemma {:induction false} SkippedOnce(s: string)
    ensures SkipSpace(SkipSpace(s)) == SkipSpace(s)
  {
    if IsSpace(Peek(s)) { SkippedOnce(s[1..]); }
  }

  /** The pieces of a list, with blanks behind each. */
  function Blanked(xs: seq<string>, ws: seq<string>): string
    requires |xs| == |ws|
  {
    if xs == [] then "" else xs[0] + (ws[0] + Blanked(xs[1..], ws[1..]))
  }

  /** Blanks keep the pieces apart; behind the last one there need be none. */
  predicate Separating(ws: seq<string>) {
    && (forall k :: 0 <= k < |ws| ==> Blank(ws[k]))
    && forall k :: 0 <= k < |ws| - 1 ==> ws[k] != ""
  }

  lemma BlankEndsToken(w: string, s: string)
    requires Blank(w) && w != ""
    ensures EndsToken(w + s)
  {
    SpaceExactly(w[0]);
  }

  lemma {:induction false} BlankedItems(xs: seq<string>, es: seq<SExp>, ws: seq<string>, suffix: string, items: seq<SExp>)
    requires AllDenote(xs, es) && |ws| == |xs| && Separating(ws)
    ensures ReadItems(SkipSpace(Blanked(xs, ws) + (")" + suffix)), items, false) == Ok(Chain(items + es, Nil), suffix)
    decreases |xs|
  {
    hide ReadItems, ReadItem, ReadSexp, Chain;
    var close := ")" + suffix;
    if xs == [] {
      Neutral(items);
      Neutral(close);
      CloseRead(suffix, items);
    } else {
      assert Denotes(xs[0], es[0]);
      var next := Blanked(xs[1..], ws[1..]) + close;
      var left := ws[0] + next;
      assert Blanked(xs, ws) + close == xs[0] + left;
      assert (xs[0] + left)[0] == xs[0][0];
      assert SkipSpace(xs[0] + left) == xs[0] + left;
      if ws[0] == "" {
        assert |xs| == 1 && next == close && left == close;
      } else {
        BlankEndsToken(ws[0], next);
      }
      ItemRead(xs[0], es[0], left, items);
      BlanksSkipped(ws[0], next);
      BlankedItems(xs[1..], es[1..], ws[1..], suffix, items + [es[0]]);
      HeadTail(es);
      Associative(items, [es[0]], es[1..]);
    }
  }

  /** Any run of blanks may stand in front of, between and behind the elements of a list. */
  lemma BlankedList(w: string, xs: seq<string>, es: seq<SExp>, ws: seq<string>, suffix: string)
    requires AllDenote(xs, es) && |ws| == |xs| && Blank(w) && Separating(ws)
    ensures ReadSexp("(" + (w + (Blanked(xs, ws) + (")" + suffix)))) == Ok(Chain(es, Nil), suffix)
  {
    hide ReadItems;
    var body := Blanked(xs, ws) + (")" + suffix);
    BlanksSkipped(w, body);
    BlankedItems(xs, es, ws, suffix, []);
    Neutral(es);
    ConsTail('(', w + body);
  }

  /** For two elements, as a text. */
  lemma BlankedPair(w1: string, x: string, w2: string, y: string, w3: string, e: SExp, f: SExp)
    requires Denotes(x, e) && Denotes(y, f) && Blank(w1) && Blank(w2) && w2 != "" && Blank(w3)
    ensures ReadSexp("(" + w1 + x + w2 + y + w3 + ")") == Ok(Chain([e, f], Nil), "")
  {
    hide ReadSexp, Chain, Denotes, Blank;
    PairText(w1, x, w2, y, w3);
    hide Blanked;
    BlankedList(w1, [x, y], [e, f], [w2, w3], "");
  }

  lemma PairText(w1: string, x: string, w2: string, y: string, w3: string)
    ensures "(" + w1 + x + w2 + y + w3 + ")" == "(" + (w1 + (Blanked([x, y], [w2, w3]) + (")" + "")))
  {
    var xs, ws := [x, y], [w2, w3];
    assert xs[1..] == [y] && ws[1..] == [w3] && xs[1..][1..] == [] && ws[1..][1..] == [];
    Neutral(w3);
    assert Blanked(xs[1..], ws[1..]) == y + w3;
    var front := "(" + w1;
    Associative(front + x, w2, y);
    Associative(front + x, w2 + y, w3);
    Associative(w2, y, w3);
    Associative(front, x, w2 + (y + w3));
    Associative("(", w1, Blanked(xs, ws) + ")");
    Associative(front, Blanked(xs, ws), ")");
    Neutral(")");
  }

  // ----- Tokens

  /** Nothing in the text ends or escapes a token, */
  predicate Unbroken(t: string) {
    forall k :: 0 <= k < |t| ==> !BlankChar(t[k]) && t[k] != ')' && t[k] != '\\' && t[k] != NUL
  }

  /** nothing opens a list or a quoted text, */
  predicate Bare(t: string) {
    t != "" && t[0] != '(' && t[0] != '"' && t[0] != '|'
  }

  /** and a token ends in front of this one. */
  predicate Ends(suffix: string) {
    suffix == "" || BlankChar(suffix[0]) || suffix[0] == ')' || suffix[0] == NUL
  }

  lemma UnbrokenIsPlain(t: string)
    requires Unbroken(t)
    ensures Plain(t)
  {
    forall k | 0 <= k < |t| {
      SpaceExactly(t[k]);
    }
  }

  lemma EndsExactly(suffix: string)
    ensures Ends(suffix) <==> EndsToken(suffix)
  {
    if suffix != "" { SpaceExactly(suffix[0]); }
  }

  /** What a token without backslash is read as: an integer if it looks like one, undefined
      outside the int range; nil; nothing if it is all periods; and any other is a symbol. */
  lemma TokenExactly(t: cstring, suffix: string)
    requires Unbroken(t) && Bare(t) && Ends(suffix)
    ensures ReadSexp(t + suffix)
         == if IntToken(t) then if -0x8000_0000 <= TokenValue(t) <= 0x7fff_ffff then Ok(Int(TokenValue(t)), suffix) else Undefined
            else if t == "nil" then Ok(Nil, suffix)
            else if forall k :: 0 <= k < |t| ==> t[k] == '.' then Null
            else Ok(Symbol(t), suffix)
  {
    UnbrokenIsPlain(t);
    EndsExactly(suffix);
    PlainToken(t, suffix);
    SpaceExactly(t[0]);
    assert (t + suffix)[0] == t[0] && SkipSpace(t + suffix) == t + suffix;
    hide ScanToken;
    assert ReadSexp(t + suffix) == ReadToken(t + suffix);
  }

  /** A backslash takes the next character literally, whatever it is, and the token is no
      integer any more. */
  lemma EscapedExactly(t: cstring, c: char, u: cstring, suffix: string)
    requires Unbroken(t) && Unbroken(u) && (t == "" || Bare(t)) && c != NUL && Ends(suffix)
    requires t + [c] + u != "nil" && exists k :: 0 <= k < |t + [c] + u| && (t + [c] + u)[k] != '.'
    ensures ReadSexp(t + ("\\" + ([c] + (u + suffix)))) == Ok(Symbol(t + [c] + u), suffix)
  {
    var inner := "\\" + ([c] + (u + suffix));
    var s := t + inner;
    UnbrokenIsPlain(t);
    UnbrokenIsPlain(u);
    EndsExactly(suffix);
    PlainToken(u, suffix);
    hide ScanToken;
    EscapedToken(c, u, suffix);
    PlainBefore(t, inner);
    Associative(t, [c], u);
    if t != "" { SpaceExactly(t[0]); }
    StartsToken(t, inner);
    assert ReadToken(s) == Classify(t + [c] + u, true, suffix);
  }

  lemma EscapedToken(c: char, u: cstring, suffix: string)
    requires c != NUL && ScanToken(u + suffix) == Token(u, false, suffix)
    ensures ScanToken("\\" + ([c] + (u + suffix))) == Token([c] + u, true, suffix)
  {
    var left := u + suffix;
    BackslashFirst(c, left);
    assert ScanToken(left).text == u;
  }

  /** A backslash and the character behind it begin the token. */
  lemma BackslashFirst(c: char, left: string)
    requires c != NUL && ScanToken(left).Token?
    ensures ScanToken("\\" + ([c] + left)) == Token([c] + ScanToken(left).text, true, ScanToken(left).rest)
  {
    var s := "\\" + ([c] + left);
    ConsTail('\\', [c] + left);
    ConsTail(c, left);
    assert s[0] == '\\' && s[1..] == [c] + left && s[1] == c && s[2..] == left;
    assert !EndsToken(s) && Peek(s[1..]) == c;
  }

  lemma StartsToken(t: string, inner: string)
    requires t == "" || (Bare(t) && !IsSpace(t[0]) && t[0] != NUL)
    requires inner != "" && inner[0] == '\\'
    ensures ReadSexp(t + inner) == ReadToken(t + inner)
  {
    hide ReadToken;
    var s := t + inner;
    assert s[0] == (if t == "" then '\\' else t[0]) && SkipSpace(s) == s;
  }

  /** Characters of a plain text belong to the token, whatever follows. */
  lemma {:induction false} PlainBefore(t: cstring, s: string)
    requires Plain(t)
    ensures ScanToken(t + s) == match ScanToken(s)
                                case Overrun => Overrun
                                case Token(text, escaped, rest) => Token(t + text, escaped, rest)
  {
    if t == "" {
      Neutral(s);
      if ScanToken(s).Token? { Neutral(ScanToken(s).text); }
    } else {
      PlainBefore(t[1..], s);
      AppendTail(t, s);
      HeadTail(t);
      if ScanToken(s).Token? { Associative([t[0]], t[1..], ScanToken(s).text); }
    }
  }

  /** A period in front of the closing parenthesis fails a CHECK. */
  lemma PeriodAtEnd(suffix: string, items: seq<SExp>)
    ensures ReadItems(".)" + suffix, items, false) == Abort
  {
    var s := ".)" + suffix;
    assert s[0] == '.' && s[1] == ')' && s[1..][0] == ')';
    var t := s[1..];
    assert ScanToken(t) == Token("", false, t) && SkipSpace(t) == t;
    assert ReadSexp(t) == ReadToken(t) == Abort;
    assert !AtDot(s) && ReadItem(s) == ReadSexp(t);
  }

  // ----- Entries

  /** (key value) */
  function Entry(key: string, x: string): string {
    "(" + key + " " + x + ")"
  }

  function EntryTree(key: cstring, e: SExp): SExp {
    Chain([Symbol(key), e], Nil)
  }

  /** Keys are bare symbols that do not look like anything else. */
  predicate Key(key: cstring) {
    !NeedsQuoting(key) && key != "nil" && key[0] != '.'
  }

  /** Small letters and dashes, beginning with a letter. */
  predicate Lower(s: string) {
    s != "" && 'a' <= s[0] <= 'z' && forall k :: 0 <= k < |s| ==> 'a' <= s[k] <= 'z' || s[k] == '-'
  }

  lemma LowerKey(s: cstring)
    requires Lower(s) && s != "nil"
    ensures Key(s)
  {
    assert Unsigned(s)[0] == s[0];
  }

  lemma ValueIsKey()
    ensures Key("value")
  {
    LowerKey("value");
  }

  lemma ChainOfTwo(a: SExp, b: SExp)
    ensures Chain([a, b], Nil) == Pair(a, Pair(b, Nil))
  {
    var s, t := [a, b], [b];
    assert s[1..] == t && t[1..] == [];
    assert Chain(t, Nil) == Pair(t[0], Chain(t[1..], Nil));
    assert Chain(s, Nil) == Pair(s[0], Chain(s[1..], Nil));
  }

  lemma EntryTreeShape(key: cstring, e: SExp)
    ensures EntryTree(key, e) == Pair(Symbol(key), Pair(e, Nil))
  {
    ChainOfTwo(Symbol(key), e);
  }

  lemma KeyDenotes(key: cstring)
    requires Key(key)
    ensures Denotes(key, Symbol(key))
  {
    BareSymbolIsPlain(key);
    assert IsSymbolChar(key[0]);
    forall suffix: string | EndsToken(suffix)
      ensures ReadSexp(key + suffix) == Ok(Symbol(key), suffix)
    {
      BareTokenRead(key, suffix);
    }
  }

  lemma EntryDenotes(key: cstring, x: string, e: SExp)
    requires Key(key) && Denotes(x, e)
    ensures DenotesAnywhere(Entry(key, x), EntryTree(key, e))
  {
    KeyDenotes(key);
    var xs, es := [key, x], [Symbol(key), e];
    assert xs[1..] == [x];
    assert "(" + Spaced(xs) + ")" == Entry(key, x);
    SpacedList(xs, es);
  }

  lemma StringDenotes(s: string)
    ensures DenotesAnywhere("\"" + CEscapeAll(CStr(s)) + "\"", Str(Soften(CStr(s))))
  {
    forall suffix: string
      ensures ReadSexp("\"" + CEscapeAll(CStr(s)) + "\"" + suffix) == Ok(Str(Soften(CStr(s))), suffix)
    {
      StringRoundTrip(CStr(s), suffix);
      QuotedRead('"', CEscapeAll(CStr(s)), suffix, false);
    }
  }

  lemma IntDenotes(i: int32)
    ensures Denotes(Decimal(i), Int(i))
  {
    DecimalIsPlain(i);
    FirstChar(Int(i));
    forall suffix: string | EndsToken(suffix)
      ensures ReadSexp(Decimal(i) + suffix) == Ok(Int(i), suffix)
    {
      NumberRoundTrip(i, suffix, false);
    }
  }

  // ----- Texts that c_str() shows whole

  predicate Clean(x: string) {
    NUL !in x
  }

  lemma CleanConcat(a: string, b: string)
    ensures Clean(a + b) <==> Clean(a) && Clean(b)
  {
  }

  lemma CleanWhole(x: string)
    requires Clean(x)
    ensures CStr(x) == x
  {
  }

  lemma CleanParens(x: string)
    requires Clean(x)
    ensures Clean("(" + x + ")")
  {
  }

  lemma CleanEntry(key: cstring, x: string)
    requires Clean(x)
    ensures Clean(Entry(key, x))
  {
    CleanConcat("(" + key + " " + x, ")");
    CleanConcat("(" + key + " ", x);
    CleanConcat("(" + key, " ");
    CleanConcat("(", key);
  }

  lemma {:induction false} CleanSpaced(xs: seq<string>)
    requires forall k :: 0 <= k < |xs| ==> Clean(xs[k])
    ensures Clean(Spaced(xs))
  {
    if |xs| > 1 {
      CleanSpaced(xs[1..]);
      CleanConcat(xs[0] + " ", Spaced(xs[1..]));
      CleanConcat(xs[0], " ");
    }
  }

  lemma {:induction false} CleanTrailed(xs: seq<string>)
    requires forall k :: 0 <= k < |xs| ==> Clean(xs[k])
    ensures Clean(Trailed(xs))
  {
    if xs != [] {
      CleanTrailed(xs[1..]);
      CleanConcat(xs[0] + " ", Trailed(xs[1..]));
      CleanConcat(xs[0], " ");
    }
  }

  lemma {:induction false} CleanEscape(s: cstring)
    ensures Clean(CEscapeAll(s))
  {
    if s != "" {
      CleanEscape(s[1..]);
      CleanConcat(CEscapeChar(s[0]), CEscapeAll(s[1..]));
      assert Clean(CEscapeChar(s[0]));
    }
  }

  lemma CleanDecimal(i: int)
    ensures Clean(Decimal(i))
    ensures i >= 0 ==> Decimal(i) == Digits(i)
  {
    var digits := Digits(if i < 0 then -i else i);
    forall k | 0 <= k < |digits|
      ensures digits[k] != NUL
    {
      assert IsDigit(digits[k]);
    }
  }
}
