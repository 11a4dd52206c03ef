/**
 * split_args (Week1/fol/robinson.py:21-36): cut an argument list at the
 * commas that are not inside parentheses, and strip each piece.
 */
module SplitArgs {
  import opened Text

  /** The parenthesis depth after reading c at depth d. */
  function Step(d: int, c: char): int
  {
    if c == '(' then d + 1 else if c == ')' then d - 1 else d
  }

  /** Whether c, read at depth d, is a separating comma. */
  predicate Cuts(d: int, c: char)
  {
    c == ',' && Step(d, c) == 0
  }

  /** `b` put in front of the first piece. */
  function Prepend(b: string, ps: seq<string>): seq<string>
    requires |ps| >= 1
  {
    [b + ps[0]] + ps[1..]
  }

  lemma PrependEmpty(ps: seq<string>)
    requires |ps| >= 1
    ensures Prepend("", ps) == ps
  {
    assert "" + ps[0] == ps[0];
    assert [ps[0]] + ps[1..] == ps;
  }

  /** The unstripped pieces of `s`, reading it from depth `d`. */
  function Pieces(s: string, d: int): (r: seq<string>)
    ensures |r| >= 1
  {
    if s == [] then [""]
    else
      var rest := Pieces(s[1..], Step(d, s[0]));
      if Cuts(d, s[0]) then [""] + rest else Prepend([s[0]], rest)
  }

  /** No piece is longer than the text it was cut from. */
  lemma {:induction false} PiecesLength(s: string, d: int)
    ensures forall i :: 0 <= i < |Pieces(s, d)| ==> |Pieces(s, d)[i]| <= |s|
  {
    if s != [] {
      PiecesLength(s[1..], Step(d, s[0]));
    }
  }

  /** The number of separating commas in `s`, read from depth `d`. */
  function Commas(s: string, d: int): nat
  {
    if s == [] then 0
    else (if Cuts(d, s[0]) then 1 else 0) + Commas(s[1..], Step(d, s[0]))
  }

  function MapStrip(xs: seq<string>): (r: seq<string>)
    ensures |r| == |xs|
    ensures forall i :: 0 <= i < |xs| ==> r[i] == Strip(xs[i])
  {
    if xs == [] then []
    else
      var rest := MapStrip(xs[1..]);
      assert forall i :: 1 <= i < |xs| ==> rest[i - 1] == Strip(xs[i]);
      [Strip(xs[0])] + rest
  }

  /** What split_args returns. */
  function Split(s: string): seq<string>
  {
    MapStrip(Pieces(s, 0))
  }

  /** There is one piece more than there are separating commas. */
  lemma {:induction false} PiecesCount(s: string, d: int)
    ensures |Pieces(s, d)| == Commas(s, d) + 1
  {
    if s != [] {
      PiecesCount(s[1..], Step(d, s[0]));
    }
  }

  /** Joining the pieces with commas gives the input back. */
  lemma {:induction false} PiecesJoin(s: string, d: int)
    ensures Join(Pieces(s, d)) == s
  {
    if s != [] {
      var rest := Pieces(s[1..], Step(d, s[0]));
      PiecesJoin(s[1..], Step(d, s[0]));
      if Cuts(d, s[0]) {
        assert s == [s[0]] + s[1..];
      } else {
        var p := Prepend([s[0]], rest);
        if |rest| == 1 {
          assert Join(p) == [s[0]] + rest[0];
        } else {
          assert p[1..] == rest[1..];
          assert Join(p) == [s[0]] + rest[0] + "," + Join(rest[1..]);
        }
        assert s == [s[0]] + s[1..];
      }
    }
  }

  /** split_args returns one (stripped) piece per separating comma, plus one. */
  lemma SplitCount(s: string)
    ensures |Split(s)| == Commas(s, 0) + 1
  {
    PiecesCount(s, 0);
  }

  /** One character of the scan: it either closes the current piece or joins it. */
  lemma PiecesStep(t: string, d: int, buf: string)
    requires t != []
    ensures Cuts(d, t[0]) ==>
      Prepend(buf, Pieces(t, d)) == [buf] + Prepend("", Pieces(t[1..], Step(d, t[0])))
    ensures !Cuts(d, t[0]) ==>
      Prepend(buf, Pieces(t, d)) == Prepend(buf + [t[0]], Pieces(t[1..], Step(d, t[0])))
  {
    var rest := Pieces(t[1..], Step(d, t[0]));
    if Cuts(d, t[0]) {
      PrependEmpty(rest);
      assert buf + "" == buf;
    } else {
      assert buf + ([t[0]] + rest[0]) == (buf + [t[0]]) + rest[0];
    }
  }

  /** One character of the scanning loop, in terms of the whole input. */
  lemma ScanStep(s: string, i: int, depth: int, buf: string, raw: seq<string>)
    requires 0 <= i < |s|
    requires Pieces(s, 0) == raw + Prepend(buf, Pieces(s[i..], depth))
    ensures Cuts(depth, s[i]) ==>
      Pieces(s, 0) == (raw + [buf]) + Prepend("", Pieces(s[i + 1..], Step(depth, s[i])))
    ensures !Cuts(depth, s[i]) ==>
      Pieces(s, 0) == raw + Prepend(buf + [s[i]], Pieces(s[i + 1..], Step(depth, s[i])))
  {
    assert s[i..][0] == s[i] && s[i..][1..] == s[i + 1..];
    PiecesStep(s[i..], depth, buf);
  }

  /** The scanning loop of split_args. */
  method SplitArgs(s: string) returns (out: seq<string>)
    ensures out == Split(s)
  {
    out := [];
    ghost var raw: seq<string> := [];
    var depth := 0;
    var buf: string := [];
    var i := 0;
    assert s[i..] == s;
    PrependEmpty(Pieces(s, 0));
    while i < |s|
      invariant 0 <= i <= |s|
      invariant Pieces(s, 0) == raw + Prepend(buf, Pieces(s[i..], depth))
      invariant out == MapStrip(raw)
    {
      var ch := s[i];
      ScanStep(s, i, depth, buf, raw);
      ghost var before := depth;
      if ch == '(' {
        depth := depth + 1;
      } else if ch == ')' {
        depth := depth - 1;
      }
      assert depth == Step(before, ch);
      if ch == ',' && depth == 0 {
        MapStripSnoc(raw, buf);
        out := out + [Strip(buf)];
        raw := raw + [buf];
        buf := [];
      } else {
        buf := buf + [ch];
      }
      i := i + 1;
    }
    assert s[i..] == [];
    assert Pieces(s[i..], depth) == [""];
    assert buf + "" == buf;
    assert Pieces(s, 0) == raw + [buf];
    MapStripSnoc(raw, buf);
    out := out + [Strip(buf)];
  }

  lemma {:induction false} MapStripSnoc(xs: seq<string>, x: string)
    ensures MapStrip(xs + [x]) == MapStrip(xs) + [Strip(x)]
  {
    var l, r := MapStrip(xs + [x]), MapStrip(xs) + [Strip(x)];
    assert |l| == |r|;
    forall i | 0 <= i < |l| ensures l[i] == r[i] {
      if i < |xs| {
        assert (xs + [x])[i] == xs[i];
      } else {
        assert (xs + [x])[i] == x;
      }
    }
  }

  // ---------------------------------------------------------------------------
  // Nesting: the facts that make re-emitted terms split back correctly
  // ---------------------------------------------------------------------------

  /** The depth after reading all of s from depth d. */
  function End(s: string, d: int): int
  {
    if s == [] then d else End(s[1..], Step(d, s[0]))
  }

  /** Read from depth d, s contains no separating comma. */
  predicate NoCut(s: string, d: int)
  {
    s == [] || (!Cuts(d, s[0]) && NoCut(s[1..], Step(d, s[0])))
  }

  /** Read from depth d, the depth stays at 1 or more throughout. */
  predicate Inside(s: string, d: int)
  {
    s == [] || (Step(d, s[0]) >= 1 && Inside(s[1..], Step(d, s[0])))
  }

  /** A token: no parenthesis, no comma. */
  predicate Plain(s: string)
  {
    forall i :: 0 <= i < |s| ==> s[i] != '(' && s[i] != ')' && s[i] != ','
  }

  /** Can stand alone as one argument: no separating comma, depth back to 0. */
  predicate Top(s: string)
  {
    NoCut(s, 0) && End(s, 0) == 0
  }

  /** Can stand inside parentheses at any depth: never leaves them, ends where it started. */
  predicate Nested(s: string)
  {
    Inside(s, 1) && End(s, 1) == 1
  }

  lemma {:induction false} PlainDepth(s: string, d: int)
    requires Plain(s)
    ensures NoCut(s, d) && End(s, d) == d
    ensures d >= 1 ==> Inside(s, d)
  {
    if s != [] {
      PlainDepth(s[1..], d);
    }
  }

  lemma {:induction false} ConcatDepth(x: string, y: string, d: int)
    ensures End(x + y, d) == End(y, End(x, d))
    ensures NoCut(x + y, d) <==> NoCut(x, d) && NoCut(y, End(x, d))
    ensures Inside(x + y, d) <==> Inside(x, d) && Inside(y, End(x, d))
  {
    if x != [] {
      assert (x + y)[1..] == x[1..] + y;
      ConcatDepth(x[1..], y, Step(d, x[0]));
    } else {
      assert x + y == y;
    }
  }

  lemma {:induction false} InsideShift(s: string, d: int, k: nat)
    requires Inside(s, d)
    ensures Inside(s, d + k) && End(s, d + k) == End(s, d) + k
  {
    if s != [] {
      InsideShift(s[1..], Step(d, s[0]), k);
    }
  }

  lemma {:induction false} InsideNoCut(s: string, d: int)
    requires Inside(s, d)
    ensures NoCut(s, d)
  {
    if s != [] {
      InsideNoCut(s[1..], Step(d, s[0]));
    }
  }

  lemma NestedAt(s: string, d: int)
    requires Nested(s) && d >= 1
    ensures Inside(s, d) && End(s, d) == d && NoCut(s, d)
  {
    InsideShift(s, 1, d - 1);
    InsideNoCut(s, d);
  }

  /** A comma-joined list of nested strings is nested. */
  lemma {:induction false} JoinNested(xs: seq<string>)
    requires forall i :: 0 <= i < |xs| ==> Nested(xs[i])
    ensures Nested(Join(xs))
  {
    if |xs| > 1 {
      JoinNested(xs[1..]);
      ConcatDepth(xs[0], "," + Join(xs[1..]), 1);
      ConcatDepth(",", Join(xs[1..]), 1);
      assert Join(xs) == xs[0] + ("," + Join(xs[1..]));
    }
  }

  /** "f(" + args + ")" stands alone and nests, for a plain f and nested args. */
  lemma Wrapped(f: string, inner: string)
    requires Plain(f) && Nested(inner)
    ensures Top(f + "(" + inner + ")") && Nested(f + "(" + inner + ")")
  {
    var s := f + "(" + inner + ")";
    assert s == f + ("(" + (inner + ")"));
    PlainDepth(f, 0);
    PlainDepth(f, 1);
    ConcatDepth(f, "(" + (inner + ")"), 0);
    ConcatDepth(f, "(" + (inner + ")"), 1);
    ConcatDepth("(", inner + ")", 0);
    ConcatDepth("(", inner + ")", 1);
    NestedAt(inner, 1);
    NestedAt(inner, 2);
    ConcatDepth(inner, ")", 1);
    ConcatDepth(inner, ")", 2);
  }

  /** The pieces of x + rest, when x holds no separating comma. */
  lemma {:induction false} NoCutPieces(x: string, rest: string, d: int)
    requires NoCut(x, d)
    ensures Pieces(x + rest, d) == Prepend(x, Pieces(rest, End(x, d)))
  {
    if x == [] {
      assert x + rest == rest;
      PrependEmpty(Pieces(rest, d));
    } else {
      var xr := x + rest;
      assert xr[0] == x[0] && xr[1..] == x[1..] + rest;
      NoCutPieces(x[1..], rest, Step(d, x[0]));
      var p := Pieces(rest, End(x, d));
      assert Pieces(xr, d) == Prepend([x[0]], Prepend(x[1..], p));
      assert [x[0]] + (x[1..] + p[0]) == x + p[0] by {
        assert x == [x[0]] + x[1..];
      }
    }
  }

  lemma PiecesAfterComma(j: string)
    ensures Pieces("," + j, 0) == [""] + Pieces(j, 0)
  {
    var t := "," + j;
    assert t[0] == ',' && t[1..] == j;
  }

  /** Splitting a comma-joined list of stand-alone pieces gives the pieces back. */
  lemma {:induction false} PiecesOfJoin(xs: seq<string>)
    requires |xs| >= 1
    requires forall i :: 0 <= i < |xs| ==> Top(xs[i])
    ensures Pieces(Join(xs), 0) == xs
  {
    if |xs| == 1 {
      NoCutPieces(xs[0], "", 0);
      assert xs[0] + "" == xs[0];
      assert Pieces("", 0) == [""];
    } else {
      var rest := xs[1..];
      PiecesOfJoin(rest);
      var tail := "," + Join(rest);
      NoCutPieces(xs[0], tail, 0);
      assert Join(xs) == xs[0] + tail;
      PiecesAfterComma(Join(rest));
      var p := [""] + rest;
      assert Prepend(xs[0], p) == [xs[0] + ""] + rest;
      assert xs[0] + "" == xs[0];
      assert xs == [xs[0]] + rest;
    }
  }
}
