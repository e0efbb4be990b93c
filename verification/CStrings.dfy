/** C strings as the server sees them: characters up to the first NUL, compared
    with `strcmp` and classified with `isspace`. */
module CStrings {

  const NUL: char := '\0'

  /** A string that holds no NUL, which is what any `char*` reader can see. */
  type cstring = s: string | NUL !in s

  datatype Option<+T> = None | Some(value: T)

  /** The part of a std::string that `c_str()` readers see. */
  function CStr(s: string): (r: cstring)
    ensures r <= s
    ensures |r| < |s| ==> s[|r|] == NUL
    ensures NUL !in s ==> r == s
  {
    if s == "" || s[0] == NUL then "" else [s[0]] + CStr(s[1..])
  }

  /** The character under the cursor: NUL once the text is exhausted. */
  function Peek(s: string): char {
    if s == "" then NUL else s[0]
  }

  predicate IsSpace(c: char) {
    c == ' ' || '\t' <= c <= '\r'
  }

  function SkipSpace(s: string): (r: string)
    ensures |r| <= |s|
    ensures !IsSpace(Peek(r))
  {
    if IsSpace(Peek(s)) then SkipSpace(s[1..]) else s
  }

  /** `strcmp(a, b) < 0` */
  predicate Less(a: string, b: string) {
    if b == "" then false
    else if a == "" then true
    else a[0] < b[0] || (a[0] == b[0] && Less(a[1..], b[1..]))
  }

  /** The strings agree before k, and there the first one ends or has the smaller character. */
  predicate LessAt(a: string, b: string, k: nat) {
    k <= |a| && k < |b| && a[..k] == b[..k] && (k < |a| ==> a[k] < b[k])
  }

  lemma {:induction false} LessExactly(a: string, b: string)
    ensures Less(a, b) <==> exists k: nat :: LessAt(a, b, k)
  {
    if b == "" || a == "" {
      assert b != "" ==> LessAt(a, b, 0);
    } else {
      LessExactly(a[1..], b[1..]);
      if a[0] == b[0] {
        forall k: nat
          ensures LessAt(a, b, k + 1) <==> LessAt(a[1..], b[1..], k)
        {
          if k + 1 <= |a| && k + 1 <= |b| {
            assert a[..k + 1] == [a[0]] + a[1..][..k] && b[..k + 1] == [b[0]] + b[1..][..k];
            assert a[1..][..k] == a[..k + 1][1..] && b[1..][..k] == b[..k + 1][1..];
          }
        }
        if Less(a[1..], b[1..]) {
          var k: nat :| LessAt(a[1..], b[1..], k);
          assert LessAt(a, b, k + 1);
        }
        if k: nat :| LessAt(a, b, k) {
          assert LessAt(a[1..], b[1..], k - 1);
        }
      } else {
        if a[0] < b[0] { assert LessAt(a, b, 0); }
        if k: nat :| LessAt(a, b, k) {
          assert k > 0 ==> a[..k][0] == b[..k][0];
        }
      }
    }
  }

  lemma {:induction false} LessIrreflexive(a: string)
    ensures !Less(a, a)
  {
    if a != "" { LessIrreflexive(a[1..]); }
  }

  lemma {:induction false} LessTransitive(a: string, b: string, c: string)
    requires Less(a, b) && Less(b, c)
    ensures Less(a, c)
  {
    if a != "" && a[0] == b[0] == c[0] { LessTransitive(a[1..], b[1..], c[1..]); }
  }

  lemma {:induction false} LessTotal(a: string, b: string)
    ensures Less(a, b) || a == b || Less(b, a)
  {
    if a != "" && b != "" && a[0] == b[0] {
      LessTotal(a[1..], b[1..]);
      assert a == [a[0]] + a[1..] && b == [b[0]] + b[1..];
    }
  }

  /** Strings that start with `p` are never below `p`. */
  lemma {:induction false} PrefixNotLess(p: string, a: string)
    requires p <= a
    ensures !Less(a, p)
  {
    if p != "" { PrefixNotLess(p[1..], a[1..]); }
  }

  /** In `strcmp` order the strings that start with `p` form one interval:
      whatever lies between `p` and such a string starts with `p` as well. */
  lemma {:induction false} PrefixInterval(p: string, a: string, b: string)
    requires !Less(a, p) && !Less(b, a) && p <= b
    ensures p <= a
  {
    if p != "" {
      assert a != "";
      assert a[0] == p[0];
      PrefixInterval(p[1..], a[1..], b[1..]);
      assert a == [a[0]] + a[1..] && p == [p[0]] + p[1..];
    }
  }
}
