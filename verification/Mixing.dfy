/** What the mixer makes of two replies (gtagsmixer.cc, sexpression_util.cc): their
    `value` lists joined into one. */
module Mixing {
  import opened CStrings
  import opened Sequences
  import opened Numerals
  import opened SExpressions
  import opened Framing

  // ----- Looking up a key

  /** The result of SExpressionAssocGet: a value, NULL, a failed CHECK (the first
      element of an entry is nil, which is a symbol but no SExpressionSymbol), or a
      dereferenced end of list (an entry that holds nothing but its key). */
  datatype Assoc = Found(value: SExp) | Missing | CheckFails | PastEnd

  function AssocGet(e: SExp, key: string): Assoc {
    if !e.IsList() then Missing else AssocIn(e.Elements(), key)
  }

  function AssocIn(entries: seq<SExp>, key: string): Assoc {
    if entries == [] then Missing
    else
      var i := entries[0];
      if !i.IsList() || i.Nil? || !(i.car.Symbol? || i.car.Nil?) then AssocIn(entries[1..], key)
      else if i.car.Nil? then CheckFails
      else if i.car.name != key then AssocIn(entries[1..], key)
      else if i.cdr.Pair? then Found(i.cdr.car)
      else PastEnd
  }

  /** An entry of the list, with the key at its head. */
  predicate Keyed(i: SExp, key: string) {
    i.IsList() && i.Pair? && i.car.Symbol? && i.car.name == key
  }

  /** An entry that ends the program if the key has not been found before it. */
  predicate Headless(i: SExp) {
    i.IsList() && i.Pair? && i.car.Nil?
  }

  /** The first entry with the key decides, unless a headless one stands in front of it. */
  lemma {:induction false} AssocFirst(entries: seq<SExp>, key: string, k: nat)
    requires k < |entries| && forall j :: 0 <= j < k ==> !Keyed(entries[j], key) && !Headless(entries[j])
    ensures Keyed(entries[k], key) ==>
              AssocIn(entries, key) == if entries[k].cdr.Pair? then Found(entries[k].cdr.car) else PastEnd
    ensures Headless(entries[k]) ==> AssocIn(entries, key) == CheckFails
  {
    if k > 0 {
      assert forall j :: 0 <= j < k - 1 ==> entries[1..][j] == entries[j + 1];
      assert !Keyed(entries[0], key) && !Headless(entries[0]);
      AssocFirst(entries[1..], key, k - 1);
    }
  }

  /** And without any of both the key is missing. */
  lemma {:induction false} AssocMissing(entries: seq<SExp>, key: string)
    requires forall j :: 0 <= j < |entries| ==> !Keyed(entries[j], key) && !Headless(entries[j])
    ensures AssocIn(entries, key) == Missing
  {
    if entries != [] {
      assert !Keyed(entries[0], key) && !Headless(entries[0]);
      AssocMissing(entries[1..], key);
    }
  }

  method SExpressionAssocGet(sexpr: SExp, key: string) returns (r: Assoc)
    ensures r == AssocGet(sexpr, key)
  {
    if !sexpr.IsList() || sexpr.Nil? {
      return Missing;
    }
    var i := sexpr;
    while i.Pair?
      invariant AssocIn(i.Elements(), key) == AssocGet(sexpr, key)
      decreases i
    {
      ConsTail(i.car, i.cdr.Elements());
      var entry := i.car;
      if entry.IsList() {
        if entry.Pair? && (entry.car.Symbol? || entry.car.Nil?) {
          if entry.car.Nil? {
            return CheckFails;
          }
          if entry.car.name == key {
            return if entry.cdr.Pair? then Found(entry.cdr.car) else PastEnd;
          }
        }
      }
      i := i.cdr;
    }
    r := Missing;
  }

  // ----- What a reply contributes

  datatype Contribution = Values(elements: seq<SExp>) | Nothing | Crash

  function FromReply(result: string): Contribution {
    match ReadSexp(CStr(result))
    case Null => Nothing
    case Abort => Crash
    case Undefined => Crash
    case Ok(response, _) =>
      match AssocGet(response, "value")
      case Found(value) => if value.IsList() then Values(value.Elements()) else Nothing
      case Missing => Nothing
      case CheckFails => Crash
      case PastEnd => Crash
  }

  /** An empty reply and an empty list contribute nothing. */
  lemma NothingFrom()
    ensures FromReply("()") == Nothing && FromReply("") == Nothing
  {
    assert "()"[1..] == ")";
    assert CStr("()") == "()" by { CleanWhole("()"); }
    assert ReadSexp("()") == ReadItems(")", [], false);
  }

  function Reprs(es: seq<SExp>): (xs: seq<string>)
    ensures |xs| == |es|
    ensures forall k :: 0 <= k < |xs| ==> xs[k] == Repr(es[k])
  {
    if es == [] then [] else [Repr(es[0])] + Reprs(es[1..])
  }

  /** The joined elements, as they are printed: nothing stands between them. */
  function JoinedText(es: seq<SExp>): string {
    "(" + All(Reprs(es)) + ")"
  }

  /** The reply that carries a failure: the message is written as it is. */
  function ErrorText(message: string): string {
    "((error ((message \"" + message + "\"))))"
  }

  /** The reply to the client; None when the program does not survive a source's
      answer. Only the remote failure is ever reported. */
  function Mix(local: string, remote: string, remoteFailure: string): Option<string> {
    var l, r := FromReply(local), FromReply(remote);
    if l.Crash? || r.Crash? then None
    else if l.Values? || r.Values? then
      Some("((value " + JoinedText((if l.Values? then l.elements else []) + (if r.Values? then r.elements else [])) + "))")
    else if remoteFailure != "" then Some(ErrorText(remoteFailure))
    else Some(remote)
  }

  lemma {:induction false} AllAppend(xs: seq<string>, ys: seq<string>)
    ensures All(xs + ys) == All(xs) + All(ys)
  {
    if xs == [] {
      Neutral(ys);
      Neutral(All(ys));
    } else {
      AllAppend(xs[1..], ys);
      AppendTail(xs, ys);
      Associative(xs[0], All(xs[1..]), All(ys));
    }
  }

  lemma {:induction false} ReprsAppend(es: seq<SExp>, fs: seq<SExp>)
    ensures Reprs(es + fs) == Reprs(es) + Reprs(fs)
  {
  }

  /** Prints the elements of one list behind the text so far. */
  method AppendElements(list: SExp, text: string) returns (output: string)
    ensures output == text + All(Reprs(list.Elements()))
  {
    hide Repr;
    output := text;
    var j := list;
    while j.Pair?
      invariant output + All(Reprs(j.Elements())) == text + All(Reprs(list.Elements()))
      decreases j
    {
      var str := new StringBuffer();
      WriteRepr(j.car, str);
      ConsTail(j.car, j.cdr.Elements());
      Neutral(Repr(j.car));
      Associative(output, Repr(j.car), All(Reprs(j.cdr.Elements())));
      output := output + str.text;
      j := j.cdr;
    }
    Neutral(output);
  }

  /** Prints the elements of all lists, one behind the other. */
  method JoinResults(sexpressions: seq<SExp>) returns (output: string)
    ensures output == JoinedText(AllElements(sexpressions))
  {
    hide Reprs, All;
    output := "(";
    var i := 0;
    NothingJoined();
    assert sexpressions[..0] == [];
    while i < |sexpressions|
      invariant 0 <= i <= |sexpressions|
      invariant output == "(" + All(Reprs(AllElements(sexpressions[..i])))
    {
      output := AppendElements(sexpressions[i], output);
      AllElementsNext(sexpressions, i);
      ReprsAppend(AllElements(sexpressions[..i]), sexpressions[i].Elements());
      AllAppend(Reprs(AllElements(sexpressions[..i])), Reprs(sexpressions[i].Elements()));
      Associative("(", All(Reprs(AllElements(sexpressions[..i]))), All(Reprs(sexpressions[i].Elements())));
      i := i + 1;
    }
    TakeAll(sexpressions);
    output := output + ")";
  }

  lemma NothingJoined()
    ensures "(" + All(Reprs(AllElements([]))) == "("
  {
  }

  function AllElements(es: seq<SExp>): seq<SExp> {
    if es == [] then [] else AllElements(es[..|es| - 1]) + es[|es| - 1].Elements()
  }

  lemma AllElementsNext(es: seq<SExp>, i: nat)
    requires i < |es|
    ensures AllElements(es[..i + 1]) == AllElements(es[..i]) + es[i].Elements()
  {
    assert es[..i + 1][..i] == es[..i];
  }

  // ----- The mixed reply

  /** The tree ((value (elements...))) */
  function ValueReply(es: seq<SExp>): SExp {
    Chain([Chain([Symbol("value"), Chain(es, Nil)], Nil)], Nil)
  }

  lemma ValueReplyDenotes(x: string, es: seq<SExp>)
    requires Denotes(x, Chain(es, Nil))
    ensures DenotesAnywhere("((value " + x + "))", ValueReply(es))
  {
    hide Denotes, DenotesAnywhere;
    ValueIsKey();
    var entry, tree := Entry("value", x), EntryTree("value", Chain(es, Nil));
    EntryDenotes("value", x, Chain(es, Nil));
    AnywhereDenotes(entry, tree);
    SpacedList([entry], [tree]);
    ValueText(x);
  }

  lemma ValueText(x: string)
    ensures "(" + Spaced([Entry("value", x)]) + ")" == "((value " + x + "))"
  {
  }

  function Elements(c: Contribution): seq<SExp> {
    if c.Values? then c.elements else []
  }

  lemma {:induction false} ChainIsList(es: seq<SExp>)
    ensures Chain(es, Nil).IsList() && Chain(es, Nil).Elements() == es
  {
    if es != [] {
      ChainIsList(es[1..]);
      HeadTail(es);
    }
  }

  /** The value list of a reply is what it contributes. */
  lemma ValueReplyContributes(es: seq<SExp>)
    ensures AssocGet(ValueReply(es), "value") == Found(Chain(es, Nil))
    ensures Chain(es, Nil).IsList() && Chain(es, Nil).Elements() == es
  {
    ChainIsList(es);
    var entry := Chain([Symbol("value"), Chain(es, Nil)], Nil);
    ChainIsList([Symbol("value"), Chain(es, Nil)]);
    ChainIsList([entry]);
  }

  /** ((value (i))), as a text */
  function NumberReply(i: nat): string
  {
    "((value " + ("(" + Digits(i) + ")") + "))"
  }

  lemma NumberReplyReads(i: nat)
    requires i < 100
    ensures ReadSexp(NumberReply(i)) == Ok(ValueReply([Int(i)]), "")
    ensures FromReply(NumberReply(i)) == Values([Int(i)])
  {
    hide Denotes, DenotesAnywhere, ValueReply, Digits;
    IntDenotes(i);
    SpacedList([Decimal(i)], [Int(i)]);
    var list := "(" + Spaced([Decimal(i)]) + ")";
    AnywhereDenotes(list, Chain([Int(i)], Nil));
    ValueReplyDenotes(list, [Int(i)]);
    NumberReplyWhole(i);
    ValueReplyContributes([Int(i)]);
  }

  lemma NumberReplyWhole(i: nat)
    requires i < 100 && DenotesAnywhere(NumberReply(i), ValueReply([Int(i)]))
    ensures ReadSexp(NumberReply(i)) == Ok(ValueReply([Int(i)]), "")
    ensures CStr(NumberReply(i)) == NumberReply(i)
  {
    hide ValueReply, Digits, ReadSexp, NumberReply, CStr;
    Neutral(NumberReply(i));
    CleanNumberReply(i);
    CleanWhole(NumberReply(i));
  }

  lemma CleanNumberReply(i: nat)
    ensures Clean(NumberReply(i))
  {
    hide Digits, Clean;
    var list := "(" + Digits(i) + ")";
    assert Clean(Digits(i)) by { CleanDecimal(i); }
    CleanParens(Digits(i));
    assert Clean("((value ") && Clean("))") by { CleanLiterals(); }
    CleanConcat("((value ", list);
    CleanConcat("((value " + list, "))");
  }

  lemma CleanLiterals()
    ensures Clean("((value ") && Clean("))")
  {
  }

  /** Elements that do not show where they end can fuse: the values (1) and (2)
      are mixed into (12). */
  lemma NumbersFuse()
    ensures FromReply(NumberReply(1)) == Values([Int(1)]) && FromReply(NumberReply(2)) == Values([Int(2)])
    ensures Mix(NumberReply(1), NumberReply(2), "").Some?
    ensures ReadSexp(Mix(NumberReply(1), NumberReply(2), "").value) == Ok(ValueReply([Int(12)]), "")
  {
    hide ValueReply, FromReply;
    NumberReplyReads(1);
    NumberReplyReads(2);
    NumberReplyReads(12);
    assert Digits(12) == Digits(1) + Digits(2);
    TwoNumbers(1, 2);
  }

  lemma TwoNumbers(i: nat, j: nat)
    requires i < 100 && j < 100
    ensures JoinedText([Int(i)] + [Int(j)]) == "(" + (Digits(i) + Digits(j)) + ")"
  {
    var es: seq<SExp> := [Int(i), Int(j)];
    assert [Int(i)] + [Int(j)] == es;
    assert es[1..] == [Int(j)];
    assert Reprs(es) == [Digits(i), Digits(j)];
    assert [Digits(i), Digits(j)][1..] == [Digits(j)];
    assert All([Digits(j)]) == Digits(j) + "";
    Neutral(Digits(j));
  }

  // ----- The object that waits for both sources

  datatype SourceId = LOCAL | REMOTE

  /** ResultMixer without its mutex: each call is made under it. */
  class ResultMixer {
    var results: map<SourceId, string>
    var failures: map<SourceId, string>
    var waitingFor: nat

    // The reply, once the callback has run; how often it ran; deleted.
    var reply: string
    ghost var callbackRuns: nat
    ghost var deleted: bool

    ghost predicate Valid()
      reads this
    {
      && results.Keys == failures.Keys == {LOCAL, REMOTE}
      && (deleted <==> waitingFor == 0)
      && callbackRuns == if deleted then 1 else 0
    }

    constructor ()
      ensures Valid() && waitingFor == 2 && !deleted
      ensures results == failures == map[LOCAL := "", REMOTE := ""]
    {
      results, failures := map[LOCAL := "", REMOTE := ""], map[LOCAL := "", REMOTE := ""];
      waitingFor, reply := 2, "";
      callbackRuns, deleted := 0, false;
    }

    /** The result of one source; false if the program does not survive mixing. */
    method SetResult(result: string, id: SourceId) returns (alive: bool)
      requires Valid() && !deleted
      modifies this
      ensures waitingFor == old(waitingFor) - 1 && (alive ==> Valid())
      ensures results == old(results)[id := result] && failures == old(failures)[id := ""]
      ensures alive <==> waitingFor > 0 || Mix(results[LOCAL], results[REMOTE], failures[REMOTE]).Some?
      ensures alive && deleted ==> Some(reply) == Mix(results[LOCAL], results[REMOTE], failures[REMOTE])
    {
      results, failures := results[id := result], failures[id := ""];
      alive := CheckIfDone();
    }

    method SetFailure(reason: string, id: SourceId) returns (alive: bool)
      requires Valid() && !deleted
      modifies this
      ensures waitingFor == old(waitingFor) - 1 && (alive ==> Valid())
      ensures results == old(results)[id := "()"] && failures == old(failures)[id := reason]
      ensures alive <==> waitingFor > 0 || Mix(results[LOCAL], results[REMOTE], failures[REMOTE]).Some?
      ensures alive && deleted ==> Some(reply) == Mix(results[LOCAL], results[REMOTE], failures[REMOTE])
    {
      results, failures := results[id := "()"], failures[id := reason];
      alive := CheckIfDone();
    }

    method CheckIfDone() returns (alive: bool)
      requires Valid() && !deleted
      modifies `waitingFor, `reply, `callbackRuns, `deleted
      ensures waitingFor == old(waitingFor) - 1
      ensures alive ==> Valid()
      ensures alive <==> waitingFor > 0 || Mix(results[LOCAL], results[REMOTE], failures[REMOTE]).Some?
      ensures alive && deleted ==> Some(reply) == Mix(results[LOCAL], results[REMOTE], failures[REMOTE])
    {
      waitingFor := waitingFor - 1;
      if waitingFor > 0 {
        return true;
      }
      var mixed := MixResult();
      if mixed.None? {
        return false;
      }
      reply := mixed.value;
      callbackRuns, deleted := callbackRuns + 1, true;
      alive := true;
    }

    method MixResult() returns (output: Option<string>)
      requires results.Keys == failures.Keys == {LOCAL, REMOTE}
      ensures output == Mix(results[LOCAL], results[REMOTE], failures[REMOTE])
    {
      hide JoinedText, FromReply, AllElements;
      var toJoin: seq<SExp> := [];
      var sources := [LOCAL, REMOTE];
      var i := 0;
      NoElements();
      while i < 2
        invariant 0 <= i <= 2
        invariant i > 0 ==> !FromReply(results[LOCAL]).Crash?
        invariant i > 1 ==> !FromReply(results[REMOTE]).Crash?
        invariant toJoin == [] <==> !(i > 0 && FromReply(results[LOCAL]).Values?) && !(i > 1 && FromReply(results[REMOTE]).Values?)
        invariant AllElements(toJoin) == (if i > 0 then Elements(FromReply(results[LOCAL])) else [])
                                       + (if i > 1 then Elements(FromReply(results[REMOTE])) else [])
      {
        var contributed := AddValue(results[sources[i]], toJoin);
        if contributed.None? {
          return None;
        }
        toJoin := contributed.value;
        i := i + 1;
      }
      if |toJoin| == 0 {
        if |failures[REMOTE]| > 0 {
          output := Some(ErrorText(failures[REMOTE]));
        } else {
          output := Some(results[REMOTE]);
        }
      } else {
        var joined := JoinResults(toJoin);
        output := Some("((value " + joined + "))");
      }
    }

    /** The loop's body: one source's value list, if it has one, joins the others. */
    static method AddValue(result: string, toJoin: seq<SExp>) returns (joined: Option<seq<SExp>>)
      ensures joined.None? <==> FromReply(result).Crash?
      ensures joined.Some? ==>
        && AllElements(joined.value) == AllElements(toJoin) + Elements(FromReply(result))
        && (joined.value == [] <==> toJoin == [] && !FromReply(result).Values?)
    {
      hide AllElements;
      var response := Parse(result);
      if response.CheckFailed? || response.OutOfBounds? {
        return None;
      }
      if response.Tree? {
        var value := SExpressionAssocGet(response.value, "value");
        if value.CheckFails? || value.PastEnd? {
          return None;
        }
        if value.Found? && value.value.IsList() {
          AllElementsSnoc(toJoin, value.value);
          return Some(toJoin + [value.value]);
        }
      }
      joined := Some(toJoin);
    }
  }

  lemma NoElements()
    ensures AllElements([]) == []
  {
  }

  lemma AllElementsSnoc(es: seq<SExp>, e: SExp)
    ensures AllElements(es + [e]) == AllElements(es) + e.Elements()
  {
    assert (es + [e])[..|es|] == es;
  }
}
