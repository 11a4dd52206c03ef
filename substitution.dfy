/**
 * Substitutions and the way robinson.py applies them (apply_sub_term,
 * Week1/fol/robinson.py:66-78, and apply_sub_lit, :215-219).
 *
 * A substitution maps variable names to terms.  Inst is the textbook,
 * simultaneous application.  apply_sub_term instead follows chains: a
 * bound variable is replaced by its value, and while that value is again
 * a bound variable not yet visited, by that one's value; a function term
 * reached this way is itself rewritten.  Resolve is that behaviour.
 */
module Substitution {
  import opened Terms

  type Subst = map<string, Term>

  /** Simultaneous application of s. */
  function Inst(t: Term, s: Subst): Term
    decreases t
  {
    match t
    case Var(n) => if n in s then s[n] else t
    case Const(_) => t
    case App(f, args) => App(f, InstArgs(args, s))
  }

  function InstArgs(ts: seq<Term>, s: Subst): (r: seq<Term>)
    ensures |r| == |ts|
    ensures forall i :: 0 <= i < |ts| ==> r[i] == Inst(ts[i], s)
    decreases ts
  {
    if ts == [] then [] else [Inst(ts[0], s)] + InstArgs(ts[1..], s)
  }

  /** No bound variable occurs in any bound term. */
  ghost predicate Idempotent(s: Subst)
  {
    forall k :: k in s ==> Vars(s[k]) !! s.Keys
  }

  /** Every bound function term is free of bound variables: the chase then always ends. */
  ghost predicate Tame(s: Subst)
  {
    forall k :: k in s && s[k].App? ==> Vars(s[k]) !! s.Keys
  }

  /** All variables a substitution mentions. */
  ghost function SubstVars(s: Subst): set<string>
  {
    s.Keys + set k, x | k in s && x in Vars(s[k]) :: x
  }

  lemma IdempotentIsTame(s: Subst)
    requires Idempotent(s)
    ensures Tame(s)
  {
  }

  // ---------------------------------------------------------------------------
  // apply_sub_term
  // ---------------------------------------------------------------------------

  /**
   * The while loop of apply_sub_term: from a bound variable not yet seen,
   * move to its value.  The result is the start or one of the bound terms.
   */
  function Chase(t: Term, s: Subst, seen: set<string>): (r: Term)
    ensures r == t || exists k :: k in s && r == s[k]
    decreases |s.Keys - seen|
  {
    if t.Var? && t.name in s && t.name !in seen then
      LeftShrinks(s.Keys, seen, t.name);
      Chase(s[t.name], s, seen + {t.name})
    else t
  }

  lemma LeftShrinks(keys: set<string>, seen: set<string>, n: string)
    requires n in keys && n !in seen
    ensures |keys - (seen + {n})| < |keys - seen|
  {
    assert keys - seen == (keys - (seen + {n})) + {n};
  }

  /** The measure apply_sub_term decreases: first whether any bound variable is left, then the term. */
  function Bound(t: Term, s: Subst): nat
  {
    if Vars(t) !! s.Keys then 0 else 1
  }

  lemma BoundArgs(ts: seq<Term>, s: Subst, i: int)
    requires 0 <= i < |ts|
    ensures Vars(ts[i]) <= VarsArgs(ts)
  {
    forall x | x in Vars(ts[i]) ensures x in VarsArgs(ts) {
      VarsArgsMember(ts, x);
    }
  }

  /** What apply_sub_term returns. */
  function Resolve(t: Term, s: Subst): Term
    requires Tame(s)
    decreases Bound(t, s), t
  {
    match t
    case App(f, args) => App(f, ResolveArgs(args, s))
    case Const(_) => t
    case Var(_) =>
      var u := Chase(t, s, {});
      if u.App? then
        assert Vars(u) !! s.Keys;
        Resolve(u, s)
      else u
  }

  function ResolveArgs(ts: seq<Term>, s: Subst): (r: seq<Term>)
    requires Tame(s)
    ensures |r| == |ts|
    ensures forall i :: 0 <= i < |ts| ==> r[i] == Resolve(ts[i], s)
    decreases if VarsArgs(ts) !! s.Keys then 0 else 1, ts
  {
    if ts == [] then []
    else [Resolve(ts[0], s)] + ResolveArgs(ts[1..], s)
  }

  /** The while loop of apply_sub_term, with its set of visited names. */
  method ChaseLoop(t: Term, s: Subst) returns (u: Term)
    ensures u == Chase(t, s, {})
  {
    var seen: set<string> := {};
    u := t;
    while u.Var? && u.name in s && u.name !in seen
      invariant Chase(u, s, seen) == Chase(t, s, {})
      decreases |s.Keys - seen|
    {
      LeftShrinks(s.Keys, seen, u.name);
      seen := seen + {u.name};
      u := s[u.name];
    }
  }

  /** apply_sub_term, with its chase loop and its recursion into arguments. */
  method ApplySubTerm(t: Term, s: Subst) returns (r: Term)
    requires Tame(s)
    ensures r == Resolve(t, s)
    decreases Bound(t, s), t, 1
  {
    match t
    case App(f, args) =>
      var newArgs := ApplySubArgs(args, s);
      r := App(f, newArgs);
    case Const(_) =>
      r := t;
    case Var(_) =>
      var u := ChaseLoop(t, s);
      if u.App? {
        assert Vars(u) !! s.Keys;
        r := ApplySubTerm(u, s);
      } else {
        r := u;
      }
  }

  /** The list comprehension of apply_sub_term over the arguments. */
  method ApplySubArgs(ts: seq<Term>, s: Subst) returns (rs: seq<Term>)
    requires Tame(s)
    ensures rs == ResolveArgs(ts, s)
    decreases if VarsArgs(ts) !! s.Keys then 0 else 1, ts, 0
  {
    rs := [];
    var i := 0;
    while i < |ts|
      invariant 0 <= i <= |ts|
      invariant |rs| == i
      invariant forall j :: 0 <= j < i ==> rs[j] == Resolve(ts[j], s)
    {
      var a := ApplySubTerm(ts[i], s);
      rs := rs + [a];
      i := i + 1;
    }
  }

  // ---------------------------------------------------------------------------
  // Facts about Inst, and where Resolve and Inst agree
  // ---------------------------------------------------------------------------

  /** A term with no bound variable is left alone. */
  lemma {:induction false} InstNoBound(t: Term, s: Subst)
    requires Vars(t) !! s.Keys
    ensures Inst(t, s) == t
    decreases t
  {
    if t.App? {
      forall i | 0 <= i < |t.args| ensures Inst(t.args[i], s) == t.args[i] {
        BoundArgs(t.args, s, i);
        InstNoBound(t.args[i], s);
      }
      assert InstArgs(t.args, s) == t.args;
    }
  }

  lemma {:induction false} ResolveNoBound(t: Term, s: Subst)
    requires Tame(s) && Vars(t) !! s.Keys
    ensures Resolve(t, s) == t
    decreases t
  {
    if t.App? {
      forall i | 0 <= i < |t.args| ensures Resolve(t.args[i], s) == t.args[i] {
        BoundArgs(t.args, s, i);
        ResolveNoBound(t.args[i], s);
      }
      assert ResolveArgs(t.args, s) == t.args;
    }
  }

  /** Which variables an instance has. */
  lemma {:induction false} VarsInst(t: Term, s: Subst, x: string)
    ensures x in Vars(Inst(t, s)) <==>
      (x in Vars(t) && x !in s) || (exists k :: k in s && k in Vars(t) && x in Vars(s[k]))
    decreases t
  {
    match t
    case Var(n) =>
    case Const(_) =>
    case App(f, args) =>
      var ia := InstArgs(args, s);
      VarsArgsMember(ia, x);
      VarsArgsMember(args, x);
      forall i | 0 <= i < |args| {
        VarsInst(args[i], s, x);
      }
      if exists k :: k in s && k in Vars(t) && x in Vars(s[k]) {
        var k :| k in s && k in Vars(t) && x in Vars(s[k]);
        VarsArgsMember(args, k);
        var i :| 0 <= i < |args| && k in Vars(args[i]);
        assert x in Vars(ia[i]);
      }
  }

  lemma VarsInstIdempotent(t: Term, s: Subst)
    requires Idempotent(s)
    ensures Vars(Inst(t, s)) !! s.Keys
  {
    forall x | x in Vars(Inst(t, s)) ensures x !in s {
      VarsInst(t, s, x);
    }
  }

  /** Applying an idempotent substitution twice is applying it once. */
  lemma InstIdempotent(t: Term, s: Subst)
    requires Idempotent(s)
    ensures Inst(Inst(t, s), s) == Inst(t, s)
  {
    VarsInstIdempotent(t, s);
    InstNoBound(Inst(t, s), s);
  }

  /** On an idempotent substitution, apply_sub_term is simultaneous substitution. */
  lemma {:induction false} ResolveIsInst(t: Term, s: Subst)
    requires Idempotent(s)
    ensures Tame(s)
    ensures Resolve(t, s) == Inst(t, s)
    decreases t
  {
    match t
    case App(f, args) =>
      forall i | 0 <= i < |args| ensures Resolve(args[i], s) == Inst(args[i], s) {
        ResolveIsInst(args[i], s);
      }
      assert ResolveArgs(args, s) == InstArgs(args, s);
    case Const(_) =>
    case Var(n) =>
      if n in s {
        var v := s[n];
        assert Vars(v) !! s.Keys;
        assert Chase(t, s, {}) == Chase(v, s, {n});
        assert Chase(v, s, {n}) == v;
        if v.App? {
          ResolveNoBound(v, s);
        }
      }
  }

  // ---------------------------------------------------------------------------
  // apply_sub_lit
  // ---------------------------------------------------------------------------

  /** What apply_sub_lit returns: the literal re-emitted with an argument list, arguments rewritten. */
  function SubLit(l: Lit, s: Subst): (r: Lit)
    requires Tame(s)
    ensures r.neg == l.neg && r.pred == l.pred && r.parens && |r.args| == |l.args|
  {
    Lit(l.neg, l.pred, ResolveArgs(l.args, s), true)
  }

  /** Simultaneous application to a literal (what apply_sub_lit does on an idempotent substitution). */
  function InstLit(l: Lit, s: Subst): (r: Lit)
    ensures r.neg == l.neg && r.pred == l.pred && r.parens && |r.args| == |l.args|
  {
    Lit(l.neg, l.pred, InstArgs(l.args, s), true)
  }

  lemma SubLitIsInstLit(l: Lit, s: Subst)
    requires Idempotent(s)
    ensures Tame(s) && SubLit(l, s) == InstLit(l, s)
  {
    forall i | 0 <= i < |l.args| ensures Resolve(l.args[i], s) == Inst(l.args[i], s) {
      ResolveIsInst(l.args[i], s);
    }
    assert ResolveArgs(l.args, s) == InstArgs(l.args, s);
  }

  /** apply_sub_lit: parse, rewrite each argument, re-emit. */
  method ApplySubLit(l: Lit, s: Subst) returns (r: Lit)
    requires Tame(s)
    ensures r == SubLit(l, s)
  {
    var newArgs := ApplySubArgs(l.args, s);
    r := Lit(l.neg, l.pred, newArgs, true);
  }
}
