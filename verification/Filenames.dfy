/** Filename (filename.cc): a path stored as its components. A directory ends in
    an empty component. */
module Filenames {
  import opened CStrings
  import opened Sequences

  // ----- Splitting and joining

  /** The text between the slashes. */
  function Split(s: string): (r: seq<string>)
    ensures r != []
    ensures forall k :: 0 <= k < |r| ==> '/' !in r[k]
  {
    if s == "" then [""]
    else
      var rest := Split(s[1..]);
      if s[0] == '/' then [""] + rest else [[s[0]] + rest[0]] + rest[1..]
  }

  /** Components just named "." are ignored. */
  function DropDots(dirs: seq<string>): (r: seq<string>)
    ensures forall k :: 0 <= k < |r| ==> r[k] != "." && r[k] in dirs
  {
    if dirs == [] then [] else (if dirs[0] == "." then [] else [dirs[0]]) + DropDots(dirs[1..])
  }

  function OrEmpty(dirs: seq<string>): seq<string> {
    if dirs == [] then [""] else dirs
  }

  function Components(file: string): (r: seq<string>)
    ensures WellFormed(r)
  {
    var dirs := Split(file);
    assert forall k :: 0 <= k < |DropDots(dirs)| ==> '/' !in DropDots(dirs)[k] by {
      forall k | 0 <= k < |DropDots(dirs)|
        ensures '/' !in DropDots(dirs)[k]
      {
        assert DropDots(dirs)[k] in dirs;
      }
    }
    OrEmpty(DropDots(dirs))
  }

  /** What Initialize establishes: at least one component, none of them "." or
      holding a slash. */
  predicate WellFormed(c: seq<string>) {
    c != [] && forall k :: 0 <= k < |c| ==> c[k] != "." && '/' !in c[k]
  }

  type Filename = c: seq<string> | WellFormed(c) witness [""]

  function Join(c: seq<string>): string {
    if c == [] then "" else if |c| == 1 then c[0] else c[0] + "/" + Join(c[1..])
  }

  function StrOf(f: Filename): (s: string)
    ensures s != ""
  {
    if Join(f) == "" then "." else Join(f)
  }

  lemma {:induction false} SplitFirst(a: string, b: string)
    requires '/' !in a
    ensures Split(a + "/" + b) == [a] + Split(b)
  {
    var s := a + "/" + b;
    if a == "" {
      assert s == "/" + b;
    } else {
      SplitFirst(a[1..], b);
      assert s[1..] == a[1..] + "/" + b;
      assert a == [a[0]] + a[1..];
    }
  }

  lemma {:induction false} SplitNone(a: string)
    requires '/' !in a
    ensures Split(a) == [a]
  {
    if a != "" {
      SplitNone(a[1..]);
      assert a == [a[0]] + a[1..];
    }
  }

  lemma {:induction false} SplitJoin(c: seq<string>)
    requires WellFormed(c)
    ensures Split(Join(c)) == c && DropDots(c) == c
  {
    if |c| == 1 {
      SplitNone(c[0]);
      assert DropDots(c[1..]) == [];
    } else {
      SplitFirst(c[0], Join(c[1..]));
      SplitJoin(c[1..]);
    }
  }

  /** The parts hold no slash, and joining them gives the text back: no other splitting does. */
  lemma {:induction false} SplitExactly(s: string)
    ensures Join(Split(s)) == s
    ensures forall c: seq<string> :: c != [] && (forall k :: 0 <= k < |c| ==> '/' !in c[k]) && Join(c) == s ==> c == Split(s)
  {
    JoinSplit(s);
    forall c: seq<string> | c != [] && (forall k :: 0 <= k < |c| ==> '/' !in c[k]) && Join(c) == s
      ensures c == Split(s)
    {
      SplitParts(c);
    }
  }

  lemma {:induction false} JoinSplit(s: string)
    ensures Join(Split(s)) == s
  {
    if s != "" {
      JoinSplit(s[1..]);
      var rest := Split(s[1..]);
      if s[0] == '/' {
        ConsTail("", rest);
        assert Join([""] + rest) == "" + "/" + Join(rest);
      } else {
        var first: string := [s[0]] + rest[0];
        ConsTail(first, rest[1..]);
        if |rest| > 1 {
          assert Join([first] + rest[1..]) == first + "/" + Join(rest[1..]);
          Associative([s[0]], rest[0], "/" + Join(rest[1..]));
          Associative(rest[0], "/", Join(rest[1..]));
          Associative(first, "/", Join(rest[1..]));
        }
      }
    }
  }

  lemma {:induction false} SplitParts(c: seq<string>)
    requires c != [] && forall k :: 0 <= k < |c| ==> '/' !in c[k]
    ensures Split(Join(c)) == c
  {
    if |c| == 1 {
      SplitNone(c[0]);
    } else {
      SplitFirst(c[0], Join(c[1..]));
      SplitParts(c[1..]);
    }
  }

  /** Only single periods are dropped, and all of them. */
  lemma {:induction false} DropDotsExactly(a: seq<string>, b: seq<string>)
    ensures DropDots(a + (["."] + b)) == DropDots(a + b)
    ensures (forall k :: 0 <= k < |a| ==> a[k] != ".") ==> DropDots(a) == a
  {
    var more := ["."] + b;
    if a == [] {
      Neutral(more);
      Neutral(b);
      DropDotsFirst(".", b);
      Neutral(DropDots(b));
    } else {
      DropDotsExactly(a[1..], b);
      AppendTail(a, more);
      AppendTail(a, b);
      HeadTail(a);
    }
  }

  /** Rebuilding a filename from its string gives the same components, so two
      filenames are equal exactly when their strings are. */
  lemma RebuildFromStr(f: Filename)
    ensures Components(StrOf(f)) == f
  {
    SplitJoin(f);
    if Join(f) == "" {
      assert Split("") == [""] && f == [""];
      SplitNone(".");
      assert DropDots(["."][1..]) == [];
      assert Components(".") == [""];
    }
  }

  lemma EqualIffSameStr(f: Filename, g: Filename)
    ensures f == g <==> StrOf(f) == StrOf(g)
  {
    RebuildFromStr(f);
    RebuildFromStr(g);
  }

  /** The position of the first slash from `pos` on, or -1. */
  function FindSlash(s: string, pos: nat): (k: int)
    requires pos <= |s|
    ensures k == -1 || pos <= k < |s|
    ensures k >= 0 ==> s[k] == '/' && '/' !in s[pos..k]
    ensures k == -1 ==> '/' !in s[pos..]
    decreases |s| - pos
  {
    if pos == |s| then -1
    else if s[pos] == '/' then pos
    else
      var k := FindSlash(s, pos + 1);
      assert s[pos..] == [s[pos]] + s[pos + 1..];
      assert k >= 0 ==> s[pos..k] == [s[pos]] + s[pos + 1..k];
      k
  }

  lemma DropDotsFirst(dir: string, more: seq<string>)
    ensures DropDots([dir] + more) == (if dir == "." then [] else [dir]) + DropDots(more)
  {
    ConsTail(dir, more);
  }

  /** The constructor; the empty name fails a CHECK. */
  method Initialize(file: string) returns (filename: Option<Filename>)
    ensures filename == if file == "" then None else Some(Components(file))
  {
    hide Split, DropDots, WellFormed;
    if file == "" {
      return None;
    }
    var dirs: seq<string> := [];
    var posBegin := 0;
    var posEnd := FindSlash(file, 0);
    ghost var all := DropDots(Split(file));
    assert file[0..] == file;
    assert dirs + all == all;
    while posEnd != -1
      invariant 0 <= posBegin <= |file| && posEnd == FindSlash(file, posBegin)
      invariant all == dirs + DropDots(Split(file[posBegin..]))
      decreases |file| - posBegin
    {
      var dir: string := file[posBegin..posEnd];
      NextComponent(file, posBegin, posEnd, dirs);
      if dir != "." {
        dirs := dirs + [dir];
      }
      posBegin := posEnd + 1;
      posEnd := FindSlash(file, posBegin);
    }
    var dir := file[posBegin..];
    LastComponent(dir, dirs);
    if dir != "." {
      dirs := dirs + [dir];
    }
    assert dirs == all;
    if |dirs| == 0 {
      dirs := [""];
    }
    assert dirs == Components(file);
    filename := Some(dirs);
  }

  lemma LastComponent(dir: string, dirs: seq<string>)
    requires '/' !in dir
    ensures dirs + DropDots(Split(dir)) == if dir == "." then dirs else dirs + [dir]
  {
    SplitNone(dir);
    DropDotsFirst(dir, []);
    Neutral([dir]);
    Neutral(dirs);
  }

  lemma NextComponent(file: string, posBegin: nat, posEnd: nat, dirs: seq<string>)
    requires posBegin <= posEnd < |file| && file[posEnd] == '/' && '/' !in file[posBegin..posEnd]
    ensures var dir, left := file[posBegin..posEnd], DropDots(Split(file[posEnd + 1..]));
            dirs + DropDots(Split(file[posBegin..])) == if dir == "." then dirs + left else dirs + [dir] + left
  {
    var dir, left := file[posBegin..posEnd], file[posEnd + 1..];
    assert file[posBegin..] == dir + "/" + left;
    SplitFirst(dir, left);
    DropDotsFirst(dir, Split(left));
    Neutral(DropDots(Split(left)));
    Associative(dirs, [dir], DropDots(Split(left)));
  }

  method Str(f: Filename) returns (s: string)
    ensures s == StrOf(f)
  {
    s := "";
    var i := 0;
    while i < |f|
      invariant 0 <= i <= |f|
      invariant s == Join(f[..i])
    {
      if i > 0 {
        s := s + "/";
      }
      s := s + f[i];
      JoinLast(f[..i], f[i]);
      assert f[..i + 1] == f[..i] + [f[i]];
      i := i + 1;
    }
    assert f[..i] == f;
    if |s| == 0 {
      s := ".";
    }
  }

  lemma {:induction false} JoinLast(c: seq<string>, d: string)
    ensures Join(c + [d]) == if c == [] then d else Join(c) + "/" + d
  {
    if |c| == 1 {
      assert (c + [d])[1..] == [d];
    } else if |c| > 1 {
      JoinLast(c[1..], d);
      assert (c + [d])[1..] == c[1..] + [d];
      assert c[0] + "/" + (Join(c[1..]) + "/" + d) == c[0] + "/" + Join(c[1..]) + "/" + d;
    }
  }

  /** The last non-empty component, if there is one. */
  method Basename(f: Filename) returns (b: Option<string>)
    ensures b == BasenameOf(f)
  {
    var index := |f| - 1;
    assert f[..index + 1] == f;
    while index >= 0 && f[index] == ""
      invariant -1 <= index < |f|
      invariant BasenameOf(f) == BasenameOf(f[..index + 1])
    {
      index := index - 1;
      assert f[..index + 2][..index + 1] == f[..index + 1];
    }
    b := if index >= 0 then Some(f[index]) else None;
  }

  function BasenameOf(f: seq<string>): (b: Option<string>)
    ensures b.Some? ==> b.value in f && b.value != ""
    ensures b.None? <==> forall k :: 0 <= k < |f| ==> f[k] == ""
  {
    if f == [] then None
    else if f[|f| - 1] != "" then Some(f[|f| - 1])
    else BasenameOf(f[..|f| - 1])
  }

  /** The last component that is not empty. */
  predicate LastAt(f: seq<string>, b: string, k: nat) {
    k < |f| && f[k] == b && b != "" && forall j :: k < j < |f| ==> f[j] == ""
  }

  lemma {:induction false} BasenameExactly(f: seq<string>, b: string)
    ensures BasenameOf(f) == Some(b) <==> exists k: nat :: LastAt(f, b, k)
  {
    if f != [] {
      var most, last := f[..|f| - 1], |f| - 1;
      if f[last] == "" {
        BasenameExactly(most, b);
        forall k: nat
          ensures LastAt(f, b, k) <==> LastAt(most, b, k)
        {
          LastInMost(f, b, k);
        }
      } else {
        assert f[last] == b ==> LastAt(f, b, last);
        assert forall k: nat :: LastAt(f, b, k) ==> k == last;
      }
    }
  }

  lemma LastInMost(f: seq<string>, b: string, k: nat)
    requires f != [] && f[|f| - 1] == ""
    ensures LastAt(f, b, k) <==> LastAt(f[..|f| - 1], b, k)
  {
  }

  // ----- Order

  /** The filenames agree before k, and there the first one ends or has the smaller component. */
  predicate PathLessAt(f: seq<string>, g: seq<string>, k: nat) {
    k <= |f| && k < |g| && f[..k] == g[..k] && (k < |f| ==> Less(f[k], g[k]))
  }

  lemma {:induction false} PathLessExactly(f: seq<string>, g: seq<string>)
    ensures PathLess(f, g) <==> exists k: nat :: PathLessAt(f, g, k)
  {
    if g == [] || f == [] {
      assert g != [] ==> PathLessAt(f, g, 0);
    } else {
      PathLessExactly(f[1..], g[1..]);
      if f[0] == g[0] {
        LessIrreflexive(f[0]);
        forall k: nat
          ensures PathLessAt(f, g, k + 1) <==> PathLessAt(f[1..], g[1..], k)
        {
          if k + 1 <= |f| && k + 1 <= |g| {
            assert f[..k + 1] == [f[0]] + f[1..][..k] && g[..k + 1] == [g[0]] + g[1..][..k];
            assert f[1..][..k] == f[..k + 1][1..] && g[1..][..k] == g[..k + 1][1..];
          }
        }
        if PathLess(f[1..], g[1..]) {
          var k: nat :| PathLessAt(f[1..], g[1..], k);
          assert PathLessAt(f, g, k + 1);
        }
        if k: nat :| PathLessAt(f, g, k) {
          assert PathLessAt(f[1..], g[1..], k - 1);
        }
      } else {
        if Less(f[0], g[0]) { assert PathLessAt(f, g, 0); }
        if k: nat :| PathLessAt(f, g, k) {
          assert k > 0 ==> f[..k][0] == g[..k][0];
        }
      }
    }
  }

  predicate PathLess(f: seq<string>, g: seq<string>) {
    if g == [] then false
    else if f == [] then true
    else Less(f[0], g[0]) || (f[0] == g[0] && PathLess(f[1..], g[1..]))
  }

  method LessThan(f: Filename, g: Filename) returns (r: bool)
    ensures r == PathLess(f, g)
  {
    var i := 0;
    var minSubdirs := if |f| < |g| then |f| else |g|;
    while minSubdirs > 0
      invariant 0 <= i && 0 <= minSubdirs && i + minSubdirs == if |f| < |g| then |f| else |g|
      invariant PathLess(f, g) == PathLess(f[i..], g[i..])
    {
      assert f[i..][0] == f[i] && g[i..][0] == g[i];
      if f[i] != g[i] {
        return Less(f[i], g[i]);
      }
      LessIrreflexive(f[i]);
      assert f[i..][1..] == f[i + 1..] && g[i..][1..] == g[i + 1..];
      i := i + 1;
      minSubdirs := minSubdirs - 1;
    }
    r := |f| < |g|;
  }

  method Equals(f: Filename, g: Filename) returns (r: bool)
    ensures r == (f == g)
  {
    if |f| != |g| {
      return false;
    }
    var i := 0;
    while i < |g|
      invariant 0 <= i <= |g| && f[..i] == g[..i]
    {
      if g[i] != f[i] {
        return false;
      }
      i := i + 1;
    }
    assert f[..i] == f && g[..i] == g;
    return true;
  }

  lemma {:induction false} PathLessTransitive(f: seq<string>, g: seq<string>, h: seq<string>)
    requires PathLess(f, g) && PathLess(g, h)
    ensures PathLess(f, h)
  {
    if f != [] {
      if Less(f[0], g[0]) && Less(g[0], h[0]) {
        LessTransitive(f[0], g[0], h[0]);
      } else if f[0] == g[0] == h[0] && PathLess(f[1..], g[1..]) && PathLess(g[1..], h[1..]) {
        PathLessTransitive(f[1..], g[1..], h[1..]);
      }
    }
  }

  /** operator< is a strict total order, and incomparable means equal: of any two
      filenames exactly one is smaller unless they are the same. */
  lemma {:induction false} PathLessTrichotomy(f: seq<string>, g: seq<string>)
    ensures (if PathLess(f, g) then 1 else 0) + (if PathLess(g, f) then 1 else 0) + (if f == g then 1 else 0) == 1
  {
    if f != [] && g != [] {
      LessTotal(f[0], g[0]);
      LessIrreflexive(f[0]);
      LessIrreflexive(g[0]);
      if Less(f[0], g[0]) && Less(g[0], f[0]) {
        LessTransitive(f[0], g[0], f[0]);
      }
      PathLessTrichotomy(f[1..], g[1..]);
      assert f == [f[0]] + f[1..] && g == [g[0]] + g[1..];
    }
  }

  // ----- Distance

  /** The directory that contains the file. */
  function Directory(f: Filename): seq<string> {
    f[..|f| - 1]
  }

  /** How many leading components two directories share. */
  function Common(a: seq<string>, b: seq<string>): (n: nat)
    ensures n <= |a| && n <= |b| && a[..n] == b[..n]
    ensures n < |a| && n < |b| ==> a[n] != b[n]
  {
    if a == [] || b == [] || a[0] != b[0] then 0
    else
      var n := Common(a[1..], b[1..]);
      assert a[..n + 1] == [a[0]] + a[1..][..n] && b[..n + 1] == [b[0]] + b[1..][..n];
      1 + n
  }

  function DirDistance(a: seq<string>, b: seq<string>): nat {
    |a| + |b| - 2 * Common(a, b)
  }

  lemma CommonUnique(a: seq<string>, b: seq<string>, n: nat)
    requires n <= |a| && n <= |b| && a[..n] == b[..n]
    requires n < |a| && n < |b| ==> a[n] != b[n]
    ensures n == Common(a, b)
  {
  }

  method DistanceTo(this0: Filename, f: Filename) returns (d: nat)
    ensures d == DirDistance(Directory(this0), Directory(f))
    ensures exists w :: Walk(w, Directory(this0), Directory(f)) && |w| - 1 == d
    ensures forall w :: Walk(w, Directory(this0), Directory(f)) ==> |w| - 1 >= d
  {
    var minLength := (if |f| < |this0| then |f| else |this0|) - 1;
    var commonSubdirs := 0;
    while commonSubdirs < minLength
      invariant 0 <= commonSubdirs <= minLength
      invariant f[..commonSubdirs] == this0[..commonSubdirs]
    {
      if f[commonSubdirs] != this0[commonSubdirs] {
        break;
      }
      commonSubdirs := commonSubdirs + 1;
    }
    var a, b := Directory(this0), Directory(f);
    assert a[..commonSubdirs] == this0[..commonSubdirs] && b[..commonSubdirs] == f[..commonSubdirs];
    CommonUnique(a, b, commonSubdirs);
    d := |f| + |this0| - 2 * commonSubdirs - 2;
    ghost var shortest := ShortestWalk(a, b);
    forall w | Walk(w, a, b)
      ensures |w| - 1 >= d
    {
      NoShorterWalk(w, a, b);
    }
  }

  /** `cd child` or `cd ..` */
  predicate Cd(a: seq<string>, b: seq<string>) {
    || (b != [] && a == b[..|b| - 1])
    || (a != [] && b == a[..|a| - 1])
  }

  predicate Walk(w: seq<seq<string>>, a: seq<string>, b: seq<string>) {
    && w != [] && w[0] == a && w[|w| - 1] == b
    && forall k :: 0 <= k < |w| - 1 ==> Cd(w[k], w[k + 1])
  }

  lemma CdMovesByOne(a: seq<string>, b: seq<string>, target: seq<string>)
    requires Cd(a, b)
    ensures DirDistance(a, target) <= DirDistance(b, target) + 1
  {
    var long, short := if |a| < |b| then b else a, if |a| < |b| then a else b;
    assert short == long[..|short|];
    var n := Common(long, target);
    if n <= |short| {
      assert short[..n] == long[..n];
      CommonUnique(short, target, n);
    } else {
      assert short == long[..n][..|short|];
      CommonUnique(short, target, |short|);
    }
  }

  /** No walk between two directories is shorter than their distance. */
  lemma {:induction false} NoShorterWalk(w: seq<seq<string>>, a: seq<string>, b: seq<string>)
    requires Walk(w, a, b)
    ensures |w| - 1 >= DirDistance(a, b)
  {
    if |w| == 1 {
      CommonUnique(a, b, |a|);
    } else {
      assert Cd(w[0], w[0 + 1]);
      forall k | 0 <= k < |w[1..]| - 1
        ensures Cd(w[1..][k], w[1..][k + 1])
      {
        assert Cd(w[k + 1], w[k + 1 + 1]);
      }
      NoShorterWalk(w[1..], w[1], b);
      CdMovesByOne(a, w[1], b);
    }
  }

  /** A walk of exactly that length: up to the common directory, then down. */
  lemma {:induction false} ShortestWalk(a: seq<string>, b: seq<string>) returns (w: seq<seq<string>>)
    ensures Walk(w, a, b) && |w| - 1 == DirDistance(a, b)
    decreases |a| + |b|
  {
    var n := Common(a, b);
    if n < |a| {
      var up := a[..|a| - 1];
      assert up[..n] == a[..n];
      CommonUnique(up, b, n);
      var rest := ShortestWalk(up, b);
      w := [a] + rest;
      assert Cd(a, up);
    } else if n < |b| {
      var parent := b[..|b| - 1];
      assert parent[..n] == b[..n];
      CommonUnique(a, parent, n);
      var rest := ShortestWalk(a, parent);
      w := rest + [b];
      assert Cd(parent, b);
    } else {
      w := [a];
    }
  }

  lemma DistanceSymmetric(a: seq<string>, b: seq<string>)
    ensures DirDistance(a, b) == DirDistance(b, a)
  {
    CommonUnique(b, a, Common(a, b));
  }

  lemma DistanceTriangle(a: seq<string>, b: seq<string>, c: seq<string>)
    ensures DirDistance(a, c) <= DirDistance(a, b) + DirDistance(b, c)
  {
    var first := ShortestWalk(a, b);
    var second := ShortestWalk(b, c);
    var w := first + second[1..];
    assert Walk(w, a, c) by {
      forall k | 0 <= k < |w| - 1
        ensures Cd(w[k], w[k + 1])
      {
        if k < |first| - 1 {
          assert Cd(first[k], first[k + 1]);
        } else {
          var j := k - (|first| - 1);
          assert w[k] == second[j] && w[k + 1] == second[j + 1];
          assert Cd(second[j], second[j + 1]);
        }
      }
    }
    NoShorterWalk(w, a, c);
  }

  lemma DistanceZero(a: seq<string>, b: seq<string>)
    ensures DirDistance(a, b) == 0 <==> a == b
  {
    if a == b { CommonUnique(a, b, |a|); }
    assert a[..|a|] == a && b[..|b|] == b;
  }
}
