/**
 * The few Python string operations the term syntax relies on: str.strip,
 * str.find, the slice s[i+1:-1], str.islower on one character, str(n) for a
 * natural number, ",".join, and the code-point order that sorted() uses.
 */
module Text {

  /** Characters for which Python's str.isspace() holds. */
  predicate IsSpace(c: char)
  {
    c == ' ' || '\t' <= c <= '\r' || '\U{1c}' <= c <= '\U{1f}' || c == '\U{85}' || c == '\U{a0}'
    || c == '\U{1680}' || '\U{2000}' <= c <= '\U{200a}' || c == '\U{2028}' || c == '\U{2029}'
    || c == '\U{202f}' || c == '\U{205f}' || c == '\U{3000}'
  }

  /** Lower-case ASCII letters: the characters for which the model takes str.islower() to hold. */
  predicate IsLower(c: char)
  {
    'a' <= c <= 'z'
  }

  predicate NoSpace(s: string)
  {
    forall i :: 0 <= i < |s| ==> !IsSpace(s[i])
  }

  function StripLeft(s: string): (r: string)
    ensures |r| <= |s| && r == s[|s| - |r|..]
    ensures r != [] ==> !IsSpace(r[0])
  {
    if s != [] && IsSpace(s[0]) then StripLeft(s[1..]) else s
  }

  function StripRight(s: string): (r: string)
    ensures |r| <= |s| && r == s[..|r|]
    ensures r != [] ==> !IsSpace(r[|r| - 1])
  {
    if s != [] && IsSpace(s[|s| - 1]) then StripRight(s[..|s| - 1]) else s
  }

  /**
   * Python's str.strip(): white space cut off at both ends.
   */
  function Strip(s: string): (r: string)
    ensures |r| <= |s|
  {
    StripLeft(StripRight(s))
  }

  /** The result of Strip starts and ends with a non-space. */
  lemma StripEnds(s: string)
    ensures Strip(s) == [] || (!IsSpace(Strip(s)[0]) && !IsSpace(Strip(s)[|Strip(s)| - 1]))
  {
    var t := StripRight(s);
    var r := StripLeft(t);
    if r != [] {
      assert r[|r| - 1] == t[|t| - 1];
    }
  }

  lemma StripNoSpace(s: string)
    requires NoSpace(s)
    ensures Strip(s) == s
  {
    var t := StripRight(s);
    assert t == s;
  }

  /** Python's s.find(c): the first index of c, or -1. */
  function Find(s: string, c: char): (r: int)
    ensures -1 <= r < |s|
    ensures r == -1 <==> c !in s
    ensures r >= 0 ==> s[r] == c && c !in s[..r]
  {
    if s == [] then -1
    else if s[0] == c then 0
    else
      var k := Find(s[1..], c);
      if k == -1 then -1
      else
        assert s[..k + 1] == [s[0]] + s[1..][..k];
        1 + k
  }

  /** Python's s[i + 1:-1] for a non-empty s and 0 <= i < |s|. */
  function Between(s: string, i: int): (r: string)
    requires 0 <= i < |s|
    ensures |r| < |s|
    ensures i + 1 < |s| - 1 ==> r == s[i + 1..|s| - 1]
  {
    if i + 1 < |s| - 1 then s[i + 1..|s| - 1] else ""
  }

  /** ",".join(xs) */
  function Join(xs: seq<string>): (r: string)
  {
    if xs == [] then ""
    else if |xs| == 1 then xs[0]
    else xs[0] + "," + Join(xs[1..])
  }

  // ---------------------------------------------------------------------------
  // str(n)
  // ---------------------------------------------------------------------------

  function Digit(d: nat): (c: char)
    requires d < 10
  {
    (48 + d) as char
  }

  /** Python's str(n) for a natural number: decimal, no leading zeros. */
  function NatToString(n: nat): (r: string)
    ensures |r| >= 1
    ensures n >= 10 ==> |r| >= 2
    ensures forall i :: 0 <= i < |r| ==> '0' <= r[i] <= '9'
  {
    if n < 10 then [Digit(n)] else NatToString(n / 10) + [Digit(n % 10)]
  }

  /** Different numbers print differently, so the names "v" + str(k) are all distinct. */
  lemma {:induction false} NatToStringInjective(a: nat, b: nat)
    requires NatToString(a) == NatToString(b)
    ensures a == b
  {
    var sa, sb := NatToString(a), NatToString(b);
    if a < 10 && b < 10 {
      assert sa[0] == sb[0];
    } else if a >= 10 && b >= 10 {
      assert sa[|sa| - 1] == sb[|sb| - 1];
      assert a % 10 == b % 10;
      assert sa[..|sa| - 1] == NatToString(a / 10);
      assert sb[..|sb| - 1] == NatToString(b / 10);
      NatToStringInjective(a / 10, b / 10);
    }
  }

  // ---------------------------------------------------------------------------
  // Python's string order
  // ---------------------------------------------------------------------------

  /** a < b on Python strings: code point by code point, a proper prefix first. */
  predicate LexLess(a: string, b: string)
  {
    |b| > 0 && (|a| == 0 || a[0] < b[0] || (a[0] == b[0] && LexLess(a[1..], b[1..])))
  }

  lemma {:induction false} LexLessIrreflexive(a: string)
    ensures !LexLess(a, a)
  {
    if |a| > 0 {
      LexLessIrreflexive(a[1..]);
    }
  }

  lemma {:induction false} LexLessTrans(a: string, b: string, c: string)
    requires LexLess(a, b) && LexLess(b, c)
    ensures LexLess(a, c)
  {
    if |a| > 0 && a[0] == b[0] && b[0] == c[0] {
      LexLessTrans(a[1..], b[1..], c[1..]);
    }
  }

  lemma {:induction false} LexLessTotal(a: string, b: string)
    requires a != b
    ensures LexLess(a, b) || LexLess(b, a)
  {
    if |a| > 0 && |b| > 0 && a[0] == b[0] {
      assert a == [a[0]] + a[1..] && b == [b[0]] + b[1..];
      LexLessTotal(a[1..], b[1..]);
    }
  }

  /** m is the least element of S. */
  predicate IsLeast(m: string, S: set<string>)
  {
    m in S && forall y :: y in S && y != m ==> LexLess(m, y)
  }

  lemma {:induction false} LeastExists(S: set<string>)
    requires S != {}
    ensures exists m :: IsLeast(m, S)
    decreases |S|
  {
    var x :| x in S;
    if S == {x} {
      assert IsLeast(x, S);
    } else {
      LeastExists(S - {x});
      var m :| IsLeast(m, S - {x});
      if LexLess(m, x) {
        assert IsLeast(m, S);
      } else {
        LexLessTotal(m, x);
        forall y | y in S && y != x ensures LexLess(x, y) {
          if y != m {
            LexLessTrans(x, m, y);
          }
        }
        assert IsLeast(x, S);
      }
    }
  }

  lemma LeastUnique(m: string, n: string, S: set<string>)
    requires IsLeast(m, S) && IsLeast(n, S)
    ensures m == n
  {
    if m != n {
      assert LexLess(m, n) && LexLess(n, m);
      LexLessTrans(m, n, m);
      LexLessIrreflexive(m);
    }
  }

  /** sorted(S): the elements of a finite set (SortedMembers) in increasing order (SortedIncreasing). */
  ghost function Sorted(S: set<string>): (r: seq<string>)
    ensures |r| == |S|
    decreases |S|
  {
    if S == {} then []
    else
      LeastExists(S);
      var m :| IsLeast(m, S);
      [m] + Sorted(S - {m})
  }

  lemma SortedUnfold(S: set<string>, m: string)
    requires IsLeast(m, S)
    ensures Sorted(S) == [m] + Sorted(S - {m})
  {
    var m' :| IsLeast(m', S) && Sorted(S) == [m'] + Sorted(S - {m'});
    LeastUnique(m, m', S);
  }

  lemma {:induction false} SortedMembers(S: set<string>)
    ensures forall x :: x in Sorted(S) <==> x in S
    decreases |S|
  {
    if S != {} {
      LeastExists(S);
      var m :| IsLeast(m, S);
      SortedUnfold(S, m);
      SortedMembers(S - {m});
    }
  }

  /** sorted really sorts: each element is below every later one. */
  lemma {:induction false} SortedIncreasing(S: set<string>)
    ensures forall i, j :: 0 <= i < j < |Sorted(S)| ==> LexLess(Sorted(S)[i], Sorted(S)[j])
    decreases |S|
  {
    if S != {} {
      LeastExists(S);
      var m :| IsLeast(m, S);
      SortedUnfold(S, m);
      SortedIncreasing(S - {m});
      SortedMembers(S - {m});
      var r, rest := Sorted(S), Sorted(S - {m});
      forall i, j | 0 <= i < j < |r| ensures LexLess(r[i], r[j]) {
        if i == 0 {
          assert r[j] == rest[j - 1] && rest[j - 1] in S - {m};
        } else {
          assert r[i] == rest[i - 1] && r[j] == rest[j - 1];
        }
      }
    }
  }
}
