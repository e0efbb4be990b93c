/** What the one reply of a run says (gtagsmixer.cc:52-108), from the texts that the
    services have sent. */
module MixerReplies {
  import opened CStrings
  import opened Sequences
  import opened SExpressions
  import opened Framing
  import opened Mixing
  import opened MixerProtocol
  import Runs = MixerRuns

  /** The text is read as an association list that has the list of es as its value. */
  ghost predicate HasList(text: string, es: seq<SExp>) {
    exists e: SExp, rest: string :: ReadSexp(CStr(text)) == Ok(e, rest) && AssocGet(e, "value") == Found(Chain(es, Nil))
  }

  ghost predicate HasNoList(text: string) {
    forall es :: !HasList(text, es)
  }

  lemma {:induction false} ListIsChain(e: SExp)
    requires e.IsList()
    ensures e == Chain(e.Elements(), Nil)
  {
    if e.Pair? {
      ListIsChain(e.cdr);
      ConsTail(e.car, e.cdr.Elements());
    }
  }

  lemma HasListExactly(text: string, es: seq<SExp>)
    ensures HasList(text, es) <==> FromReply(text) == Values(es)
  {
    hide ReadSexp, AssocGet;
    ChainIsList(es);
    if FromReply(text) == Values(es) {
      var e := ReadSexp(CStr(text)).value;
      ListIsChain(AssocGet(e, "value").value);
      assert ReadSexp(CStr(text)) == Ok(e, ReadSexp(CStr(text)).rest);
    }
  }

  /** The list of the text, or nothing. */
  ghost predicate Lists(text: string, es: seq<SExp>) {
    HasList(text, es) || (HasNoList(text) && es == [])
  }

  /** The text that the local source stands for at the end of a run, */
  ghost predicate LocalStands(l: string, local: Option<map<nat, Reply>>) {
    if local.None? then l == ""
    else
      || (exists t :: t in local.value && local.value[t] == Result(l))
      || (l == "()" && forall t :: t in local.value ==> local.value[t].Failure?)
  }

  /** and the one of the remote source, or its failure. */
  ghost predicate RemoteStands(r: Option<string>, remote: map<nat, Reply>) {
    if r.Some? then exists t :: t in remote && remote[t] == Result(r.value)
    else forall t :: t in remote ==> remote[t].Failure?
  }

  ghost predicate ListsOrFails(r: Option<string>, es: seq<SExp>) {
    if r.Some? then Lists(r.value, es) else es == []
  }

  ghost predicate NeitherLists(l: string, r: Option<string>) {
    HasNoList(l) && (r.Some? ==> HasNoList(r.value))
  }

  const FAILURE: string := "((error ((message \"" + "Failed to connect to remote services." + "\"))))"

  /** What the client gets of these two. */
  ghost predicate Says(reply: string, l: string, r: Option<string>) {
    && (NeitherLists(l, r) ==> reply == if r.Some? then r.value else FAILURE)
    && (!NeitherLists(l, r) ==> forall es, fs :: Lists(l, es) && ListsOrFails(r, fs) ==> reply == ListReply(es + fs))
  }

  function ListReply(es: seq<SExp>): string {
    "((value (" + All(Reprs(es)) + ")))"
  }

  /** Every run that ends with a reply: the lists of both sources joined, if there is one;
      the remote text as it is, if there is none and the remote source has answered,
      whatever the local source brought; and the failure if it has not. */
  lemma RunReplies(local: Option<map<nat, Reply>>, remote: map<nat, Reply>, schedule: Schedule, s: State)
      returns (l: string, r: Option<string>)
    requires Runs.Served(local, remote) && Run(Init(local, remote), schedule) == Some(s) && Runs.Ended(s)
    requires s.mixer.reply.Some?
    ensures LocalStands(l, local) && RemoteStands(r, remote)
    ensures Says(s.mixer.reply.value, l, r)
  {
    hide Run, Init, Runs.Ended, Mix, Says;
    var first, last := Runs.CompletedRun(local, remote, schedule, s);
    l, r := Runs.Answer(first).0, last;
    MixSays(l, r);
  }

  lemma MixSays(l: string, r: Option<string>)
    requires Mix(l, Runs.Answer(r).0, Runs.Answer(r).1).Some?
    ensures Says(Mix(l, Runs.Answer(r).0, Runs.Answer(r).1).value, l, r)
  {
    hide FromReply, Lists, HasNoList, ListReply, JoinedText, ErrorText;
    var text, failure := Runs.Answer(r).0, Runs.Answer(r).1;
    NothingFrom();
    NoListExactly(l);
    NoListExactly(text);
    FailureText();
    if !NeitherLists(l, r) {
      forall es, fs | Lists(l, es) && ListsOrFails(r, fs)
        ensures Mix(l, text, failure) == Some(ListReply(es + fs))
      {
        ListsExactly(l, es);
        if r.Some? { ListsExactly(text, fs); }
        ListText(es + fs);
      }
    }
  }

  lemma FailureText()
    ensures ErrorText(CONNECT_FAILURE) == FAILURE
  {
  }

  lemma ListsExactly(text: string, es: seq<SExp>)
    requires Lists(text, es)
    ensures if FromReply(text).Values? then FromReply(text).elements == es else es == []
  {
    hide FromReply, HasList, HasNoList;
    HasListExactly(text, es);
    NoListExactly(text);
  }

  lemma ListText(es: seq<SExp>)
    ensures "((value " + JoinedText(es) + "))" == ListReply(es)
  {
  }

  lemma NoListExactly(text: string)
    ensures HasNoList(text) <==> !FromReply(text).Values?
  {
    hide FromReply, HasList;
    if FromReply(text).Values? { HasListExactly(text, FromReply(text).elements); }
    forall es {
      HasListExactly(text, es);
    }
  }

  /** Nobody's answer has a list. */
  ghost predicate NobodyLists(replies: map<nat, Reply>) {
    forall t :: t in replies && replies[t].Result? ==> HasNoList(replies[t].text)
  }

  /** If no answer has a value that is a list and the remote source has answered, the
      client gets an answer of the remote source back as it is. */
  lemma RemoteTextComesBack(local: Option<map<nat, Reply>>, remote: map<nat, Reply>, schedule: Schedule, s: State)
    requires Runs.Served(local, remote) && Run(Init(local, remote), schedule) == Some(s) && Runs.Ended(s)
    requires s.mixer.reply.Some? && NobodyLists(remote) && (local.Some? ==> NobodyLists(local.value))
    requires exists t :: t in remote && remote[t].Result?
    ensures exists t :: t in remote && remote[t] == Result(s.mixer.reply.value)
  {
    hide Run, Init, Runs.Ended, HasNoList;
    var l, r := RunReplies(local, remote, schedule, s);
    EmptyHasNoList();
  }

  lemma EmptyHasNoList()
    ensures HasNoList("") && HasNoList("()")
  {
    hide FromReply, HasNoList;
    NothingFrom();
    NoListExactly("");
    NoListExactly("()");
  }

  /** The failure is the reply if and only if the remote source has failed and the local
      one brings no list, unless a service sends that very text. */
  lemma FailureExactly(local: Option<map<nat, Reply>>, remote: map<nat, Reply>, schedule: Schedule, s: State)
      returns (l: string, r: Option<string>)
    requires Runs.Served(local, remote) && Run(Init(local, remote), schedule) == Some(s) && Runs.Ended(s)
    requires s.mixer.reply.Some? && forall t :: t in remote ==> remote[t] != Result(FAILURE)
    ensures LocalStands(l, local) && RemoteStands(r, remote)
    ensures s.mixer.reply == Some(FAILURE) <==> HasNoList(l) && forall t :: t in remote ==> remote[t].Failure?
  {
    hide Run, Init, Runs.Ended, HasNoList, Lists;
    l, r := RunReplies(local, remote, schedule, s);
    if !NeitherLists(l, r) {
      var es := SomeLists(l);
      var fs := [];
      if r.Some? { fs := SomeLists(r.value); }
      assert s.mixer.reply == Some(ListReply(es + fs));
      NoListInFailure(es + fs);
    }
  }

  lemma NoListInFailure(es: seq<SExp>)
    ensures ListReply(es) != FAILURE
  {
    assert ListReply(es)[2] == 'v';
    assert FAILURE[2] == "((error ((message \""[2] == 'e';
  }

  lemma SomeLists(text: string) returns (es: seq<SExp>)
    ensures Lists(text, es)
  {
    hide HasList;
    if HasNoList(text) {
      es := [];
    } else {
      es :| HasList(text, es);
    }
  }
}
