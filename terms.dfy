/**
 * The first-order term language of Week1/fol/robinson.py.  The source keeps
 * terms as strings and reads them by a lexical convention: a variable is a
 * non-empty token starting with a lower-case letter and containing no "(";
 * a function term contains "(" and ends with ")"; anything else is a
 * constant.  Here terms are a datatype; Decode reads the convention and
 * Encode writes a term back the way the source re-emits it.
 */
module Terms {
  import opened Text
  import opened SplitArgs

  datatype Term =
    | Var(name: string)
    | Const(name: string)
    | App(f: string, args: seq<Term>)

  /**
   * A literal: polarity, predicate name and arguments.  `parens` says
   * whether the text carries an argument list: "P" and "P()" read the same
   * but are different strings, and the source compares literal strings.
   */
  datatype Lit = Lit(neg: bool, pred: string, args: seq<Term>, parens: bool)

  function Size(t: Term): (n: nat)
    ensures n >= 1
    decreases t
  {
    match t
    case App(_, args) => 1 + SizeArgs(args)
    case _ => 1
  }

  function SizeArgs(ts: seq<Term>): nat
    decreases ts
  {
    if ts == [] then 0 else Size(ts[0]) + SizeArgs(ts[1..])
  }

  lemma {:induction false} SizeArgsBound(ts: seq<Term>, i: int)
    requires 0 <= i < |ts|
    ensures Size(ts[i]) <= SizeArgs(ts)
    decreases ts
  {
    if i > 0 {
      SizeArgsBound(ts[1..], i - 1);
    }
  }

  /** The set of variables of a term. */
  function Vars(t: Term): set<string>
    decreases t
  {
    match t
    case Var(n) => {n}
    case Const(_) => {}
    case App(_, args) => VarsArgs(args)
  }

  function VarsArgs(ts: seq<Term>): (r: set<string>)
    ensures forall i :: 0 <= i < |ts| ==> Vars(ts[i]) <= r
    decreases ts
  {
    if ts == [] then {} else Vars(ts[0]) + VarsArgs(ts[1..])
  }

  lemma {:induction false} VarsArgsMember(ts: seq<Term>, x: string)
    ensures x in VarsArgs(ts) <==> exists i :: 0 <= i < |ts| && x in Vars(ts[i])
    decreases ts
  {
    if ts != [] {
      VarsArgsMember(ts[1..], x);
      if x in VarsArgs(ts[1..]) {
        var i :| 0 <= i < |ts[1..]| && x in Vars(ts[1..][i]);
        assert x in Vars(ts[i + 1]);
      }
      if exists i :: 0 <= i < |ts| && x in Vars(ts[i]) {
        var i :| 0 <= i < |ts| && x in Vars(ts[i]);
        if i > 0 {
          assert x in Vars(ts[1..][i - 1]);
        }
      }
    }
  }

  /** vars_in_term: the variables in order of occurrence, repeats kept. */
  function VarsInTerm(t: Term): (r: seq<string>)
    ensures forall x :: x in r <==> x in Vars(t)
    decreases t
  {
    match t
    case Var(n) => [n]
    case Const(_) => []
    case App(_, args) => VarsInArgs(args)
  }

  function VarsInArgs(ts: seq<Term>): (r: seq<string>)
    ensures forall x :: x in r <==> x in VarsArgs(ts)
    decreases ts
  {
    if ts == [] then [] else VarsInTerm(ts[0]) + VarsInArgs(ts[1..])
  }

  /** vars_in_lit: the variables of the arguments, in order. */
  function VarsInLit(l: Lit): (r: seq<string>)
    ensures forall x :: x in r <==> x in VarsArgs(l.args)
  {
    VarsInArgs(l.args)
  }

  // ---------------------------------------------------------------------------
  // Reading the lexical convention
  // ---------------------------------------------------------------------------

  /** is_var_term */
  predicate IsVarTerm(s: string)
  {
    var t := Strip(s);
    t != "" && IsLower(t[0]) && '(' !in t
  }

  /** is_func_term */
  predicate IsFuncTerm(s: string)
  {
    var t := Strip(s);
    '(' in t && t[|t| - 1] == ')'
  }

  /** The text before the first "(" and the text between it and the last character, both stripped. */
  function NameAndInside(t: string): (r: (string, string))
    requires '(' in t
    ensures |r.1| < |t|
  {
    var k := Find(t, '(');
    (Strip(t[..k]), Strip(Between(t, k)))
  }

  /** The argument texts of an argument list: none for an empty list, else split_args. */
  function ArgTexts(inside: string): (r: seq<string>)
    ensures forall i :: 0 <= i < |r| ==> |r[i]| <= |inside|
  {
    PiecesLength(inside, 0);
    if inside == "" then [] else Split(inside)
  }

  /** func_parts */
  function FuncParts(s: string): (r: (string, seq<string>))
    requires '(' in Strip(s)
    ensures forall i :: 0 <= i < |r.1| ==> |r.1[i]| < |s|
  {
    var (nm, inside) := NameAndInside(Strip(s));
    (nm, ArgTexts(inside))
  }

  /** The term a string denotes. */
  function Decode(s: string): Term
    decreases |s|
  {
    if IsVarTerm(s) then Var(Strip(s))
    else if IsFuncTerm(s) then
      var parts := FuncParts(s);
      App(parts.0, DecodeArgs(parts.1, |s|))
    else Const(Strip(s))
  }

  function DecodeArgs(texts: seq<string>, bound: nat): (r: seq<Term>)
    requires forall i :: 0 <= i < |texts| ==> |texts[i]| < bound
    ensures |r| == |texts|
    ensures forall i :: 0 <= i < |texts| ==> r[i] == Decode(texts[i])
    decreases bound, |texts|
  {
    if texts == [] then [] else [Decode(texts[0])] + DecodeArgs(texts[1..], bound)
  }

  /** parse_lit */
  function ParseLit(s: string): Lit
  {
    var l := Strip(s);
    var neg := |l| > 0 && l[0] == '~';
    ParseBody(neg, if neg then Strip(l[1..]) else l)
  }

  /** parse_lit after the sign: a bare name, or a name with an argument list. */
  function ParseBody(neg: bool, l: string): Lit
  {
    if '(' !in l then Lit(neg, l, [], false)
    else
      var (name, inside) := NameAndInside(l);
      var texts := ArgTexts(inside);
      Lit(neg, name, DecodeArgs(texts, |inside| + 1), true)
  }

  // ---------------------------------------------------------------------------
  // Writing terms back
  // ---------------------------------------------------------------------------

  /** A term as the source writes it: name(arg,arg,...) with no spaces. */
  function Encode(t: Term): string
    decreases t
  {
    match t
    case Var(n) => n
    case Const(n) => n
    case App(f, args) => f + "(" + Join(EncodeArgs(args)) + ")"
  }

  function EncodeArgs(ts: seq<Term>): (r: seq<string>)
    ensures |r| == |ts|
    ensures forall i :: 0 <= i < |ts| ==> r[i] == Encode(ts[i])
    decreases ts
  {
    if ts == [] then [] else [Encode(ts[0])] + EncodeArgs(ts[1..])
  }

  /** A literal as apply_sub_lit writes it (and as it was read, for a literal without parentheses). */
  function EncodeLit(l: Lit): string
  {
    (if l.neg then "~" else "") + EncodeBody(l)
  }

  function EncodeBody(l: Lit): string
  {
    if l.parens then l.pred + "(" + Join(EncodeArgs(l.args)) + ")" else l.pred
  }

  /** A name that survives the round trip: no spaces, parentheses or commas. */
  predicate Token(n: string)
  {
    NoSpace(n) && Plain(n)
  }

  /**
   * Terms whose text reads back as the same term: variable names start with
   * a lower-case letter, constant names are non-empty and do not.
   */
  predicate WfTerm(t: Term)
    decreases t
  {
    match t
    case Var(n) => Token(n) && n != "" && IsLower(n[0])
    case Const(n) => Token(n) && n != "" && !IsLower(n[0])
    case App(f, args) => Token(f) && forall i :: 0 <= i < |args| ==> WfTerm(args[i])
  }

  predicate WfLit(l: Lit)
  {
    && Token(l.pred) && (l.pred == "" || l.pred[0] != '~')
    && (!l.parens ==> l.args == [] && l.pred != "")
    && forall i :: 0 <= i < |l.args| ==> WfTerm(l.args[i])
  }

  lemma {:induction false} JoinNoSpace(xs: seq<string>)
    requires forall i :: 0 <= i < |xs| ==> NoSpace(xs[i])
    ensures NoSpace(Join(xs))
  {
    if |xs| > 1 {
      JoinNoSpace(xs[1..]);
    }
  }

  /** What reading an argument list written by Encode gives back. */
  lemma JoinNonEmpty(xs: seq<string>)
    requires |xs| >= 1 && xs[0] != ""
    ensures Join(xs) != ""
  {
    if |xs| > 1 {
      assert Join(xs) == xs[0] + "," + Join(xs[1..]);
    }
  }

  lemma MapStripNoSpace(xs: seq<string>)
    requires forall i :: 0 <= i < |xs| ==> NoSpace(xs[i])
    ensures MapStrip(xs) == xs
  {
    forall i | 0 <= i < |xs| ensures MapStrip(xs)[i] == xs[i] {
      StripNoSpace(xs[i]);
    }
  }

  /** Reading back a comma-joined list of stand-alone, space-free pieces. */
  lemma ArgTextsOfJoinedPieces(xs: seq<string>)
    requires forall i :: 0 <= i < |xs| ==> Top(xs[i]) && NoSpace(xs[i]) && xs[i] != ""
    ensures Strip(Join(xs)) == Join(xs)
    ensures ArgTexts(Join(xs)) == xs
  {
    JoinNoSpace(xs);
    StripNoSpace(Join(xs));
    if xs != [] {
      JoinNonEmpty(xs);
      PiecesOfJoin(xs);
      MapStripNoSpace(xs);
    }
  }

  /** What reading an argument list written by Encode gives back. */
  lemma ArgTextsOfJoin(args: seq<Term>)
    requires forall i :: 0 <= i < |args| ==> Top(Encode(args[i])) && NoSpace(Encode(args[i])) && Encode(args[i]) != ""
    ensures Strip(Join(EncodeArgs(args))) == Join(EncodeArgs(args))
    ensures ArgTexts(Join(EncodeArgs(args))) == EncodeArgs(args)
  {
    var xs := EncodeArgs(args);
    assert forall i :: 0 <= i < |xs| ==> Top(xs[i]) && NoSpace(xs[i]) && xs[i] != "" by {
      forall i | 0 <= i < |xs| ensures Top(xs[i]) && NoSpace(xs[i]) && xs[i] != "" {
        assert xs[i] == Encode(args[i]);
      }
    }
    ArgTextsOfJoinedPieces(xs);
  }

  lemma PlainHasNoParen(n: string)
    requires Plain(n)
    ensures '(' !in n
  {
    forall j | 0 <= j < |n| ensures n[j] != '(' {
    }
  }

  lemma {:induction false} FindAt(u: string, c: char, k: int)
    requires 0 <= k < |u| && u[k] == c
    requires forall j :: 0 <= j < k ==> u[j] != c
    ensures Find(u, c) == k
  {
    if k > 0 {
      FindAt(u[1..], c, k - 1);
    }
  }

  /** The text of "f(inside)" splits at its first "(" into f and inside. */
  lemma SplitCall(f: string, inside: string)
    requires Token(f) && NoSpace(inside)
    ensures '(' in f + "(" + inside + ")"
    ensures NameAndInside(f + "(" + inside + ")") == (f, Strip(inside))
  {
    var u := f + "(" + inside + ")";
    assert u[|f|] == '(';
    assert u[..|f|] == f;
    FindAt(u, '(', |f|);
    StripNoSpace(f);
    if |inside| > 0 {
      assert Between(u, |f|) == inside;
    }
  }

  /** The shape facts for "f(a1,...,an)" from those of its arguments. */
  lemma EncodeAppShape(f: string, args: seq<Term>)
    requires Token(f)
    requires forall i :: 0 <= i < |args| ==>
      Top(Encode(args[i])) && Nested(Encode(args[i])) && NoSpace(Encode(args[i])) && Encode(args[i]) != ""
    ensures Top(Encode(App(f, args))) && Nested(Encode(App(f, args)))
    ensures NoSpace(Encode(App(f, args))) && Encode(App(f, args)) != ""
  {
    var xs := EncodeArgs(args);
    var inner := Join(xs);
    assert Encode(App(f, args)) == f + "(" + inner + ")";
    JoinNested(xs);
    Wrapped(f, inner);
    JoinNoSpace(xs);
  }

  /** How the source reads "f(inner)": a function term named f with the pieces of inner. */
  lemma ReadCall(f: string, inner: string)
    requires Token(f) && NoSpace(inner)
    ensures !IsVarTerm(f + "(" + inner + ")") && IsFuncTerm(f + "(" + inner + ")")
    ensures FuncParts(f + "(" + inner + ")") == (f, ArgTexts(Strip(inner)))
  {
    var u := f + "(" + inner + ")";
    assert NoSpace(u);
    StripNoSpace(u);
    SplitCall(f, inner);
    assert u[|f|] == '(';
  }

  /** The encoding of a well-formed application, given the facts about its arguments. */
  lemma DecodeEncodeApp(f: string, args: seq<Term>)
    requires Token(f)
    requires forall i :: 0 <= i < |args| ==> WfTerm(args[i])
    requires forall i :: 0 <= i < |args| ==> Decode(Encode(args[i])) == args[i]
    requires forall i :: 0 <= i < |args| ==>
      Top(Encode(args[i])) && Nested(Encode(args[i])) && NoSpace(Encode(args[i])) && Encode(args[i]) != ""
    ensures Decode(Encode(App(f, args))) == App(f, args)
  {
    var xs := EncodeArgs(args);
    var inner := Join(xs);
    var u := Encode(App(f, args));
    assert u == f + "(" + inner + ")";
    JoinNoSpace(xs);
    ArgTextsOfJoin(args);
    ReadCall(f, inner);
    var ds := DecodeArgs(xs, |u|);
    assert ds == args;
  }

  /** Re-emitted terms read back as themselves, and nest inside argument lists. */
  lemma {:induction false} DecodeEncode(t: Term)
    requires WfTerm(t)
    ensures Decode(Encode(t)) == t
    ensures Top(Encode(t)) && Nested(Encode(t)) && NoSpace(Encode(t)) && Encode(t) != ""
    decreases t
  {
    match t
    case Var(n) =>
      StripNoSpace(n);
      PlainDepth(n, 0);
      PlainDepth(n, 1);
    case Const(n) =>
      StripNoSpace(n);
      PlainDepth(n, 0);
      PlainDepth(n, 1);
      PlainHasNoParen(n);
    case App(f, args) =>
      forall i | 0 <= i < |args| ensures Decode(Encode(args[i])) == args[i]
        && Top(Encode(args[i])) && Nested(Encode(args[i])) && NoSpace(Encode(args[i])) && Encode(args[i]) != ""
      {
        DecodeEncode(args[i]);
      }
      EncodeAppShape(f, args);
      DecodeEncodeApp(f, args);
  }

  /** Distinct well-formed terms have distinct texts, so comparing texts compares terms. */
  lemma EncodeInjective(a: Term, b: Term)
    requires WfTerm(a) && WfTerm(b) && Encode(a) == Encode(b)
    ensures a == b
  {
    DecodeEncode(a);
    DecodeEncode(b);
  }

  /** parse_lit on "~body" or "body": the sign is read off and body is what remains. */
  lemma ReadSign(neg: bool, body: string)
    requires NoSpace(body) && (body == "" || body[0] != '~')
    ensures var s := (if neg then "~" else "") + body;
      var l := Strip(s);
      (|l| > 0 && l[0] == '~') == neg && (if neg then Strip(l[1..]) else l) == body
  {
    var s := (if neg then "~" else "") + body;
    assert NoSpace(s);
    StripNoSpace(s);
    StripNoSpace(body);
    if neg {
      assert s[1..] == body;
    } else {
      assert s == body;
    }
  }

  lemma NoSpaceConcat(a: string, b: string)
    requires NoSpace(a) && NoSpace(b)
    ensures NoSpace(a + b)
  {
  }

  lemma ArgsRoundTrip(args: seq<Term>)
    requires forall i :: 0 <= i < |args| ==> WfTerm(args[i])
    ensures forall i :: 0 <= i < |args| ==> Decode(Encode(args[i])) == args[i]
    ensures forall i :: 0 <= i < |args| ==>
      Top(Encode(args[i])) && NoSpace(Encode(args[i])) && Encode(args[i]) != ""
    ensures NoSpace(Join(EncodeArgs(args)))
  {
    forall i | 0 <= i < |args| ensures Decode(Encode(args[i])) == args[i]
      && Top(Encode(args[i])) && NoSpace(Encode(args[i])) && Encode(args[i]) != ""
    {
      DecodeEncode(args[i]);
    }
    JoinNoSpace(EncodeArgs(args));
  }

  lemma DecodeArgsOfEncoded(args: seq<Term>, xs: seq<string>, bound: nat)
    requires xs == EncodeArgs(args)
    requires forall i :: 0 <= i < |args| ==> Decode(Encode(args[i])) == args[i]
    requires forall i :: 0 <= i < |xs| ==> |xs[i]| < bound
    ensures DecodeArgs(xs, bound) == args
  {
    var ds := DecodeArgs(xs, bound);
    forall i | 0 <= i < |args| ensures ds[i] == args[i] {
      assert xs[i] == Encode(args[i]);
    }
  }

  /** parse_lit's reading of "P(args)" after the sign. */
  lemma ParseCallBody(neg: bool, pred: string, args: seq<Term>)
    requires Token(pred)
    requires forall i :: 0 <= i < |args| ==> Decode(Encode(args[i])) == args[i]
    requires forall i :: 0 <= i < |args| ==>
      Top(Encode(args[i])) && NoSpace(Encode(args[i])) && Encode(args[i]) != ""
    requires NoSpace(Join(EncodeArgs(args)))
    ensures ParseBody(neg, pred + "(" + Join(EncodeArgs(args)) + ")") == Lit(neg, pred, args, true)
  {
    var xs := EncodeArgs(args);
    var inner := Join(xs);
    var u := pred + "(" + inner + ")";
    ArgTextsOfJoin(args);
    SplitCall(pred, inner);
    assert NameAndInside(u) == (pred, inner);
    assert ArgTexts(inner) == xs;
    assert ParseBody(neg, u) == Lit(neg, pred, DecodeArgs(xs, |inner| + 1), true);
    DecodeArgsOfEncoded(args, xs, |inner| + 1);
  }

  /** parse_lit reads the sign, then the body. */
  lemma ParseSigned(neg: bool, body: string)
    requires NoSpace(body) && (body == "" || body[0] != '~')
    ensures ParseLit((if neg then "~" else "") + body) == ParseBody(neg, body)
  {
    ReadSign(neg, body);
  }

  lemma ParseEncodeCall(l: Lit)
    requires WfLit(l) && l.parens
    ensures ParseLit(EncodeLit(l)) == l
  {
    ArgsRoundTrip(l.args);
    var body := EncodeBody(l);
    CallBodyShape(l.pred, Join(EncodeArgs(l.args)));
    assert EncodeLit(l) == (if l.neg then "~" else "") + body;
    ParseSigned(l.neg, body);
    ParseCallBody(l.neg, l.pred, l.args);
  }

  /** A call written out has no spaces and does not start with the sign. */
  lemma CallBodyShape(pred: string, inner: string)
    requires Token(pred) && NoSpace(inner)
    ensures NoSpace(pred + "(" + inner + ")")
    ensures (pred == "" || pred[0] != '~') ==> (pred + "(" + inner + ")")[0] != '~'
  {
    NoSpaceConcat(pred, "(");
    NoSpaceConcat(pred + "(", inner);
    NoSpaceConcat(pred + "(" + inner, ")");
    if pred == [] {
      assert (pred + "(" + inner + ")")[0] == '(';
    } else {
      assert (pred + "(" + inner + ")")[0] == pred[0];
    }
  }

  /** Re-emitted literals read back as themselves. */
  lemma ParseEncodeLit(l: Lit)
    requires WfLit(l)
    ensures ParseLit(EncodeLit(l)) == l
  {
    if l.parens {
      ParseEncodeCall(l);
    } else {
      ParseSigned(l.neg, l.pred);
      PlainHasNoParen(l.pred);
    }
  }
}
