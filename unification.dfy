/**
 * Robinson unification with the occurs check, as unify / unify_terms do it
 * (Week1/fol/robinson.py:80-141).
 *
 * unify_terms keeps its substitution idempotent: no bound variable occurs in
 * any bound term.  Unifier is what it returns for two terms under a
 * substitution; UnifierSound and UnifierComplete say that a result unifies
 * the two terms and is most general among the unifiers extending the
 * substitution it started from, and that None means no such unifier exists.
 */
module Unification {
  import opened Wrappers
  import opened Terms
  import opened Substitution

  /** sigma is an instance of s: applying s and then sigma is applying sigma. */
  ghost predicate MoreGeneral(s: Subst, sigma: Subst)
  {
    forall v :: v in s ==> Inst(s[v], sigma) == Inst(Var(v), sigma)
  }

  lemma {:induction false} InstCompose(t: Term, s: Subst, sigma: Subst)
    requires MoreGeneral(s, sigma)
    ensures Inst(Inst(t, s), sigma) == Inst(t, sigma)
    decreases t
  {
    match t
    case Var(_) =>
    case Const(_) =>
    case App(f, args) =>
      forall i | 0 <= i < |args| ensures Inst(Inst(args[i], s), sigma) == Inst(args[i], sigma) {
        InstCompose(args[i], s, sigma);
      }
      assert InstArgs(InstArgs(args, s), sigma) == InstArgs(args, sigma);
  }

  lemma MoreGeneralSelf(s: Subst)
    requires Idempotent(s)
    ensures MoreGeneral(s, s)
  {
    forall v | v in s ensures Inst(s[v], s) == Inst(Var(v), s) {
      InstNoBound(s[v], s);
    }
  }

  lemma MoreGeneralTrans(s: Subst, s1: Subst, sigma: Subst)
    requires MoreGeneral(s, s1) && MoreGeneral(s1, sigma)
    ensures MoreGeneral(s, sigma)
  {
    forall v | v in s ensures Inst(s[v], sigma) == Inst(Var(v), sigma) {
      InstCompose(s[v], s1, sigma);
      InstCompose(Var(v), s1, sigma);
    }
  }

  /** Every variable of an instance comes from the term or from the substitution. */
  lemma VarsInstWithin(t: Term, s: Subst)
    ensures Vars(Inst(t, s)) <= Vars(t) + SubstVars(s)
  {
    forall x | x in Vars(Inst(t, s)) ensures x in Vars(t) + SubstVars(s) {
      VarsInst(t, s, x);
    }
  }

  // ---------------------------------------------------------------------------
  // occurs
  // ---------------------------------------------------------------------------

  /** occurs: does v appear in term once s is applied? */
  function Occurs(v: string, term: Term, s: Subst): (r: bool)
    requires Idempotent(s)
    ensures r <==> v in Vars(Inst(term, s))
    decreases Size(Inst(term, s)), 0
  {
    ResolveIsInst(term, s);
    VarsInstIdempotent(term, s);
    var t := Resolve(term, s);
    if t == Var(v) then true
    else if t.App? then OccursIn(v, t.args, s)
    else false
  }

  function OccursIn(v: string, args: seq<Term>, s: Subst): (r: bool)
    requires Idempotent(s) && VarsArgs(args) !! s.Keys
    ensures r <==> v in VarsArgs(args)
    decreases SizeArgs(args), 1
  {
    if args == [] then false
    else
      InstNoBound(args[0], s);
      Occurs(v, args[0], s) || OccursIn(v, args[1..], s)
  }

  /** A variable strictly inside a term cannot be unified with it: the instance would contain itself. */
  lemma {:induction false} SizeGrows(b: Term, x: string, sigma: Subst)
    requires x in Vars(b)
    ensures Size(Inst(b, sigma)) >= Size(Inst(Var(x), sigma))
    ensures b.App? ==> Size(Inst(b, sigma)) > Size(Inst(Var(x), sigma))
    decreases b
  {
    if b.App? {
      VarsArgsMember(b.args, x);
      var i :| 0 <= i < |b.args| && x in Vars(b.args[i]);
      SizeGrows(b.args[i], x, sigma);
      SizeArgsBound(InstArgs(b.args, sigma), i);
    }
  }

  lemma OccursCheck(x: string, b: Term, sigma: Subst)
    ensures Inst(Var(x), sigma) == Inst(b, sigma) && x in Vars(b) ==> b == Var(x)
  {
    if x in Vars(b) {
      SizeGrows(b, x, sigma);
    }
  }

  // ---------------------------------------------------------------------------
  // Binding a variable
  // ---------------------------------------------------------------------------

  /** sub[x] = t, then every other entry rewritten by {x: t}. */
  function Extend(s: Subst, x: string, t: Term): (r: Subst)
    ensures r.Keys == s.Keys + {x}
  {
    map k | k in s.Keys + {x} :: if k == x then t else Inst(s[k], map[x := t])
  }

  /** Applying the extended substitution is applying s, then binding x. */
  lemma {:induction false} InstExtend(u: Term, s: Subst, x: string, t: Term)
    requires x !in s
    ensures Inst(u, Extend(s, x, t)) == Inst(Inst(u, s), map[x := t])
    decreases u
  {
    match u
    case Var(_) =>
    case Const(_) =>
    case App(f, args) =>
      forall i | 0 <= i < |args|
        ensures Inst(args[i], Extend(s, x, t)) == Inst(Inst(args[i], s), map[x := t])
      {
        InstExtend(args[i], s, x, t);
      }
      assert InstArgs(args, Extend(s, x, t)) == InstArgs(InstArgs(args, s), map[x := t]);
  }

  /** Binding a fresh variable to a term free of it and of the bound variables keeps the substitution idempotent. */
  lemma ExtendIdempotent(s: Subst, x: string, t: Term)
    requires Idempotent(s) && x !in s && x !in Vars(t) && Vars(t) !! s.Keys
    ensures Idempotent(Extend(s, x, t))
    ensures SubstVars(Extend(s, x, t)) <= SubstVars(s) + {x} + Vars(t)
  {
    var e := Extend(s, x, t);
    var one := map[x := t];
    forall k | k in e ensures Vars(e[k]) !! e.Keys && Vars(e[k]) <= SubstVars(s) + Vars(t) {
      if k != x {
        forall y | y in Vars(e[k]) ensures y !in e.Keys && y in SubstVars(s) + Vars(t) {
          VarsInst(s[k], one, y);
        }
      }
    }
  }

  /** Binding x to t is no less general than any sigma identifying x with t. */
  lemma {:induction false} Absorb(u: Term, x: string, t: Term, sigma: Subst)
    requires Inst(Var(x), sigma) == Inst(t, sigma)
    ensures Inst(Inst(u, map[x := t]), sigma) == Inst(u, sigma)
    decreases u
  {
    match u
    case Var(_) =>
    case Const(_) =>
    case App(f, args) =>
      forall i | 0 <= i < |args| ensures Inst(Inst(args[i], map[x := t]), sigma) == Inst(args[i], sigma) {
        Absorb(args[i], x, t, sigma);
      }
      assert InstArgs(InstArgs(args, map[x := t]), sigma) == InstArgs(args, sigma);
  }

  lemma BindSound(a0: Term, b0: Term, s: Subst, x: string, t: Term)
    requires Idempotent(s) && x !in s && x !in Vars(t)
    requires Inst(a0, s) == Var(x) && Inst(b0, s) == t
    ensures Inst(a0, Extend(s, x, t)) == Inst(b0, Extend(s, x, t))
    ensures MoreGeneral(s, Extend(s, x, t))
  {
    var e := Extend(s, x, t);
    InstExtend(a0, s, x, t);
    InstExtend(b0, s, x, t);
    InstNoBound(t, map[x := t]);
    forall v | v in s ensures Inst(s[v], e) == Inst(Var(v), e) {
      InstExtend(s[v], s, x, t);
      InstNoBound(s[v], s);
    }
  }

  lemma BindComplete(s: Subst, x: string, t: Term, sigma: Subst)
    requires MoreGeneral(s, sigma) && Inst(Var(x), sigma) == Inst(t, sigma)
    ensures MoreGeneral(Extend(s, x, t), sigma)
  {
    var e := Extend(s, x, t);
    forall v | v in e ensures Inst(e[v], sigma) == Inst(Var(v), sigma) {
      if v != x {
        Absorb(s[v], x, t, sigma);
      }
    }
  }

  /** The in-place binding step of unify_terms. */
  method Bind(s: Subst, x: string, t: Term) returns (r: Subst)
    requires x !in Vars(t)
    ensures r == Extend(s, x, t)
  {
    var one := map[x := t];
    assert Idempotent(one);
    r := s[x := t];
    var keys := r.Keys;
    while keys != {}
      invariant keys <= r.Keys && r.Keys == s.Keys + {x}
      invariant r[x] == t
      invariant forall k :: k in r && k != x ==> r[k] == (if k in keys then s[k] else Inst(s[k], one))
      decreases keys
    {
      var k :| k in keys;
      if k != x {
        ResolveIsInst(r[k], one);
        var u := ApplySubTerm(r[k], one);
        r := r[k := u];
      }
      keys := keys - {k};
    }
    assert r == Extend(s, x, t);
  }

  // ---------------------------------------------------------------------------
  // unify_terms, as a function
  // ---------------------------------------------------------------------------

  lemma SubsetCard(a: set<string>, b: set<string>)
    requires a <= b
    ensures |a| <= |b|
  {
    if a != {} {
      var x :| x in a;
      SubsetCard(a - {x}, b - {x});
    }
  }

  /** Variables not yet bound: the first half of the termination measure. */
  ghost function Pool(a: Term, b: Term, s: Subst): set<string>
  {
    Vars(a) + Vars(b) + SubstVars(s) - s.Keys
  }

  ghost function PoolArgs(xs: seq<Term>, ys: seq<Term>, s: Subst): set<string>
  {
    VarsArgs(xs) + VarsArgs(ys) + SubstVars(s) - s.Keys
  }

  ghost function Weight(a: Term, b: Term, s: Subst): nat
  {
    Size(Inst(a, s)) + Size(Inst(b, s))
  }

  ghost function WeightArgs(xs: seq<Term>, ys: seq<Term>, s: Subst): nat
  {
    SizeArgs(InstArgs(xs, s)) + SizeArgs(InstArgs(ys, s))
  }

  ghost predicate LexLe(p1: nat, w1: nat, p2: nat, w2: nat)
  {
    p1 < p2 || (p1 == p2 && w1 <= w2)
  }

  lemma {:induction false} SizeInstArgs(ts: seq<Term>, s: Subst)
    requires ts != []
    ensures SizeArgs(InstArgs(ts, s)) == Size(Inst(ts[0], s)) + SizeArgs(InstArgs(ts[1..], s))
  {
    assert InstArgs(ts, s)[1..] == InstArgs(ts[1..], s);
  }

  /** Moving from two function terms to their argument lists shrinks the measure. */
  lemma ArgsMeasure(a0: Term, b0: Term, s: Subst)
    requires Idempotent(s)
    requires Inst(a0, s).App? && Inst(b0, s).App?
    ensures var a := Inst(a0, s); var b := Inst(b0, s);
      |PoolArgs(a.args, b.args, s)| <= |Pool(a0, b0, s)| &&
      WeightArgs(a.args, b.args, s) < Weight(a0, b0, s)
  {
    var a := Inst(a0, s);
    var b := Inst(b0, s);
    VarsInstWithin(a0, s);
    VarsInstWithin(b0, s);
    SubsetCard(PoolArgs(a.args, b.args, s), Pool(a0, b0, s));
    VarsInstIdempotent(a0, s);
    VarsInstIdempotent(b0, s);
    InstNoBound(a, s);
    InstNoBound(b, s);
  }

  /** The first pair of arguments weighs no more than the lists. */
  lemma HeadMeasure(xs: seq<Term>, ys: seq<Term>, s: Subst)
    requires |xs| == |ys| > 0
    ensures |Pool(xs[0], ys[0], s)| <= |PoolArgs(xs, ys, s)|
    ensures Weight(xs[0], ys[0], s) <= WeightArgs(xs, ys, s)
  {
    SubsetCard(Pool(xs[0], ys[0], s), PoolArgs(xs, ys, s));
    SizeInstArgs(xs, s);
    SizeInstArgs(ys, s);
  }

  lemma PoolTail(xs: seq<Term>, ys: seq<Term>, s: Subst, s1: Subst)
    requires |xs| == |ys| > 0
    requires s.Keys <= s1.Keys
    requires SubstVars(s1) <= Vars(xs[0]) + Vars(ys[0]) + SubstVars(s)
    ensures PoolArgs(xs[1..], ys[1..], s1) <= PoolArgs(xs, ys, s) - s1.Keys
    ensures s1.Keys - s.Keys <= PoolArgs(xs, ys, s)
  {
    assert VarsArgs(xs) == Vars(xs[0]) + VarsArgs(xs[1..]);
    assert VarsArgs(ys) == Vars(ys[0]) + VarsArgs(ys[1..]);
    assert s1.Keys <= SubstVars(s1);
  }

  lemma WeightTail(xs: seq<Term>, ys: seq<Term>, s: Subst)
    requires |xs| == |ys| > 0
    ensures WeightArgs(xs[1..], ys[1..], s) < WeightArgs(xs, ys, s)
  {
    SizeInstArgs(xs, s);
    SizeInstArgs(ys, s);
  }

  /** After the first pair is unified the rest of the lists weigh less. */
  lemma TailMeasure(xs: seq<Term>, ys: seq<Term>, s: Subst, s1: Subst)
    requires |xs| == |ys| > 0
    requires s.Keys <= s1.Keys
    requires SubstVars(s1) <= Vars(xs[0]) + Vars(ys[0]) + SubstVars(s)
    requires s1.Keys == s.Keys ==> s1 == s
    ensures |PoolArgs(xs[1..], ys[1..], s1)| < |PoolArgs(xs, ys, s)| ||
      (|PoolArgs(xs[1..], ys[1..], s1)| == |PoolArgs(xs, ys, s)| &&
       WeightArgs(xs[1..], ys[1..], s1) < WeightArgs(xs, ys, s))
  {
    var big := PoolArgs(xs, ys, s);
    var small := PoolArgs(xs[1..], ys[1..], s1);
    PoolTail(xs, ys, s, s1);
    if s1.Keys == s.Keys {
      SubsetCard(small, big);
      WeightTail(xs, ys, s);
    } else {
      var k :| k in s1.Keys && k !in s.Keys;
      SubsetCard(small, big - {k});
    }
  }

  /** The binding branch of unify_terms keeps the substitution idempotent and grows it. */
  lemma BindResult(a0: Term, b0: Term, s: Subst)
    requires Idempotent(s) && Inst(a0, s).Var?
    requires !Occurs(Inst(a0, s).name, Inst(b0, s), s)
    ensures var e := Extend(s, Inst(a0, s).name, Inst(b0, s));
      Idempotent(e) && s.Keys <= e.Keys && e.Keys != s.Keys &&
      SubstVars(e) <= Vars(a0) + Vars(b0) + SubstVars(s)
  {
    var a, b := Inst(a0, s), Inst(b0, s);
    var x := a.name;
    VarsInstIdempotent(a0, s);
    VarsInstIdempotent(b0, s);
    assert x in Vars(a);
    InstIdempotent(b0, s);
    assert x !in Vars(b);
    ExtendIdempotent(s, x, b);
    var e := Extend(s, x, b);
    assert x in e.Keys && x !in s.Keys;
    VarsInstWithin(a0, s);
    VarsInstWithin(b0, s);
    VarsBound(SubstVars(e), SubstVars(s), x, Vars(a), Vars(b), Vars(a0), Vars(b0));
  }

  /** The set reasoning at the end of BindResult, kept apart from SubstVars. */
  lemma VarsBound(e: set<string>, s: set<string>, x: string, a: set<string>, b: set<string>,
                  a0: set<string>, b0: set<string>)
    requires e <= s + {x} + b && x in a
    requires a <= a0 + s && b <= b0 + s
    ensures e <= a0 + b0 + s
  {
  }

  /** The variables of a result for the argument lists are variables of the two terms or of s. */
  lemma ArgsResult(a0: Term, b0: Term, s: Subst, r: Option<Subst>)
    requires Inst(a0, s).App? && Inst(b0, s).App?
    requires r.Some? ==> SubstVars(r.value) <= VarsArgs(Inst(a0, s).args) + VarsArgs(Inst(b0, s).args) + SubstVars(s)
    ensures r.Some? ==> SubstVars(r.value) <= Vars(a0) + Vars(b0) + SubstVars(s)
  {
    VarsInstWithin(a0, s);
    VarsInstWithin(b0, s);
  }

  /** unify_terms(a0, b0, s): None, or the extended substitution. */
  function Unifier(a0: Term, b0: Term, s: Subst): (r: Option<Subst>)
    requires Idempotent(s)
    ensures r.Some? ==> Idempotent(r.value) && s.Keys <= r.value.Keys
    ensures r.Some? ==> SubstVars(r.value) <= Vars(a0) + Vars(b0) + SubstVars(s)
    ensures r.Some? && r.value.Keys == s.Keys ==> r.value == s
    decreases |Pool(a0, b0, s)|, Weight(a0, b0, s), 0
  {
    ResolveIsInst(a0, s);
    ResolveIsInst(b0, s);
    var a := Resolve(a0, s);
    var b := Resolve(b0, s);
    if a == b then Some(s)
    else if a.Var? then
      if Occurs(a.name, b, s) then None
      else
        BindResult(a0, b0, s);
        Some(Extend(s, a.name, b))
    else if b.Var? then
      if Occurs(b.name, a, s) then None
      else
        BindResult(b0, a0, s);
        Some(Extend(s, b.name, a))
    else if a.App? && b.App? then
      if a.f != b.f || |a.args| != |b.args| then None
      else
        ArgsMeasure(a0, b0, s);
        var r := UnifierArgs(a.args, b.args, s);
        ArgsResult(a0, b0, s, r);
        r
    else None
  }

  /** The zip loop of unify_terms over two argument lists. */
  function UnifierArgs(xs: seq<Term>, ys: seq<Term>, s: Subst): (r: Option<Subst>)
    requires Idempotent(s) && |xs| == |ys|
    ensures r.Some? ==> Idempotent(r.value) && s.Keys <= r.value.Keys
    ensures r.Some? ==> SubstVars(r.value) <= VarsArgs(xs) + VarsArgs(ys) + SubstVars(s)
    ensures r.Some? && r.value.Keys == s.Keys ==> r.value == s
    decreases |PoolArgs(xs, ys, s)|, WeightArgs(xs, ys, s), 1
  {
    if xs == [] then Some(s)
    else
      HeadMeasure(xs, ys, s);
      match Unifier(xs[0], ys[0], s)
      case None => None
      case Some(s1) =>
        TailMeasure(xs, ys, s, s1);
        var r := UnifierArgs(xs[1..], ys[1..], s1);
        ArgsChain(xs, ys, s, s1, r);
        r
  }

  lemma ArgsChain(xs: seq<Term>, ys: seq<Term>, s: Subst, s1: Subst, r: Option<Subst>)
    requires |xs| == |ys| > 0
    requires s.Keys <= s1.Keys && (s1.Keys == s.Keys ==> s1 == s)
    requires SubstVars(s1) <= Vars(xs[0]) + Vars(ys[0]) + SubstVars(s)
    requires r.Some? ==> s1.Keys <= r.value.Keys && (r.value.Keys == s1.Keys ==> r.value == s1)
    requires r.Some? ==> SubstVars(r.value) <= VarsArgs(xs[1..]) + VarsArgs(ys[1..]) + SubstVars(s1)
    ensures r.Some? ==> s.Keys <= r.value.Keys && (r.value.Keys == s.Keys ==> r.value == s)
    ensures r.Some? ==> SubstVars(r.value) <= VarsArgs(xs) + VarsArgs(ys) + SubstVars(s)
  {
    Chain(s, s1, r, Vars(xs[0]) + Vars(ys[0]), VarsArgs(xs[1..]) + VarsArgs(ys[1..]));
    assert VarsArgs(xs) == Vars(xs[0]) + VarsArgs(xs[1..]);
    assert VarsArgs(ys) == Vars(ys[0]) + VarsArgs(ys[1..]);
  }

  /** Two successive extensions compose into one. */
  lemma Chain(s: Subst, s1: Subst, r: Option<Subst>, a: set<string>, b: set<string>)
    requires s.Keys <= s1.Keys && (s1.Keys == s.Keys ==> s1 == s)
    requires SubstVars(s1) <= a + SubstVars(s)
    requires r.Some? ==> s1.Keys <= r.value.Keys && (r.value.Keys == s1.Keys ==> r.value == s1)
    requires r.Some? ==> SubstVars(r.value) <= b + SubstVars(s1)
    ensures r.Some? ==> s.Keys <= r.value.Keys && (r.value.Keys == s.Keys ==> r.value == s)
    ensures r.Some? ==> SubstVars(r.value) <= a + b + SubstVars(s)
  {
  }

  /** A result unifies the two terms and is an instance of the substitution it started from. */
  lemma {:induction false} UnifierSound(a0: Term, b0: Term, s: Subst)
    requires Idempotent(s)
    ensures Unifier(a0, b0, s).Some? ==>
      Inst(a0, Unifier(a0, b0, s).value) == Inst(b0, Unifier(a0, b0, s).value) &&
      MoreGeneral(s, Unifier(a0, b0, s).value)
    decreases |Pool(a0, b0, s)|, Weight(a0, b0, s), 0
  {
    ResolveIsInst(a0, s);
    ResolveIsInst(b0, s);
    VarsInstIdempotent(a0, s);
    VarsInstIdempotent(b0, s);
    InstIdempotent(a0, s);
    InstIdempotent(b0, s);
    var a := Inst(a0, s);
    var b := Inst(b0, s);
    if a == b {
      MoreGeneralSelf(s);
    } else if a.Var? {
      if !Occurs(a.name, b, s) {
        BindSound(a0, b0, s, a.name, b);
      }
    } else if b.Var? {
      if !Occurs(b.name, a, s) {
        BindSound(b0, a0, s, b.name, a);
      }
    } else if a.App? && b.App? && a.f == b.f && |a.args| == |b.args| {
      ArgsMeasure(a0, b0, s);
      UnifierArgsSound(a.args, b.args, s);
      var r := UnifierArgs(a.args, b.args, s);
      if r.Some? {
        InstCompose(a0, s, r.value);
        InstCompose(b0, s, r.value);
      }
    }
  }

  lemma {:induction false} UnifierArgsSound(xs: seq<Term>, ys: seq<Term>, s: Subst)
    requires Idempotent(s) && |xs| == |ys|
    ensures UnifierArgs(xs, ys, s).Some? ==>
      InstArgs(xs, UnifierArgs(xs, ys, s).value) == InstArgs(ys, UnifierArgs(xs, ys, s).value) &&
      MoreGeneral(s, UnifierArgs(xs, ys, s).value)
    decreases |PoolArgs(xs, ys, s)|, WeightArgs(xs, ys, s), 1
  {
    if xs == [] {
      MoreGeneralSelf(s);
    } else {
      HeadMeasure(xs, ys, s);
      UnifierSound(xs[0], ys[0], s);
      var h := Unifier(xs[0], ys[0], s);
      if h.Some? {
        var s1 := h.value;
        TailMeasure(xs, ys, s, s1);
        UnifierArgsSound(xs[1..], ys[1..], s1);
        var r := UnifierArgs(xs[1..], ys[1..], s1);
        if r.Some? {
          var sigma := r.value;
          InstCompose(xs[0], s1, sigma);
          InstCompose(ys[0], s1, sigma);
          MoreGeneralTrans(s, s1, sigma);
          assert InstArgs(xs, sigma) == [Inst(xs[0], sigma)] + InstArgs(xs[1..], sigma);
          assert InstArgs(ys, sigma) == [Inst(ys[0], sigma)] + InstArgs(ys[1..], sigma);
        }
      }
    }
  }

  /**
   * Most generality: whenever some sigma extending s unifies the two terms,
   * a result exists and sigma is an instance of it.  So None means no unifier.
   */
  lemma {:induction false} UnifierComplete(a0: Term, b0: Term, s: Subst, sigma: Subst)
    requires Idempotent(s) && MoreGeneral(s, sigma)
    ensures Inst(a0, sigma) == Inst(b0, sigma) ==>
      Unifier(a0, b0, s).Some? && MoreGeneral(Unifier(a0, b0, s).value, sigma)
    decreases |Pool(a0, b0, s)|, Weight(a0, b0, s), 0
  {
    if Inst(a0, sigma) == Inst(b0, sigma) {
      ResolveIsInst(a0, s);
      ResolveIsInst(b0, s);
      VarsInstIdempotent(a0, s);
      VarsInstIdempotent(b0, s);
      InstIdempotent(a0, s);
      InstIdempotent(b0, s);
      InstCompose(a0, s, sigma);
      InstCompose(b0, s, sigma);
      var a := Inst(a0, s);
      var b := Inst(b0, s);
      if a == b {
      } else if a.Var? {
        OccursCheck(a.name, b, sigma);
        BindComplete(s, a.name, b, sigma);
      } else if b.Var? {
        OccursCheck(b.name, a, sigma);
        BindComplete(s, b.name, a, sigma);
      } else if a.App? && b.App? {
        assert InstArgs(a.args, sigma) == InstArgs(b.args, sigma);
        ArgsMeasure(a0, b0, s);
        UnifierArgsComplete(a.args, b.args, s, sigma);
      }
    }
  }

  lemma {:induction false} UnifierArgsComplete(xs: seq<Term>, ys: seq<Term>, s: Subst, sigma: Subst)
    requires Idempotent(s) && |xs| == |ys| && MoreGeneral(s, sigma)
    ensures InstArgs(xs, sigma) == InstArgs(ys, sigma) ==>
      UnifierArgs(xs, ys, s).Some? && MoreGeneral(UnifierArgs(xs, ys, s).value, sigma)
    decreases |PoolArgs(xs, ys, s)|, WeightArgs(xs, ys, s), 1
  {
    if InstArgs(xs, sigma) == InstArgs(ys, sigma) && xs != [] {
      HeadMeasure(xs, ys, s);
      UnifierComplete(xs[0], ys[0], s, sigma);
      var s1 := Unifier(xs[0], ys[0], s).value;
      TailMeasure(xs, ys, s, s1);
      assert InstArgs(xs[1..], sigma) == InstArgs(xs, sigma)[1..];
      assert InstArgs(ys[1..], sigma) == InstArgs(ys, sigma)[1..];
      UnifierArgsComplete(xs[1..], ys[1..], s1, sigma);
    }
  }

  // ---------------------------------------------------------------------------
  // unify_terms, as a method
  // ---------------------------------------------------------------------------

  /** unify_terms: resolve both sides, then compare, bind or descend. */
  method UnifyTerms(a0: Term, b0: Term, s: Subst) returns (r: Option<Subst>)
    requires Idempotent(s)
    ensures r == Unifier(a0, b0, s)
    decreases |Pool(a0, b0, s)|, Weight(a0, b0, s), 0
  {
    ResolveIsInst(a0, s);
    ResolveIsInst(b0, s);
    VarsInstIdempotent(a0, s);
    VarsInstIdempotent(b0, s);
    InstIdempotent(a0, s);
    InstIdempotent(b0, s);
    var a := ApplySubTerm(a0, s);
    var b := ApplySubTerm(b0, s);
    if a == b {
      return Some(s);
    }
    if a.Var? {
      if Occurs(a.name, b, s) {
        return None;
      }
      var e := Bind(s, a.name, b);
      return Some(e);
    }
    if b.Var? {
      if Occurs(b.name, a, s) {
        return None;
      }
      var e := Bind(s, b.name, a);
      return Some(e);
    }
    if a.App? && b.App? {
      if a.f != b.f || |a.args| != |b.args| {
        return None;
      }
      ArgsMeasure(a0, b0, s);
      r := UnifyArgs(a.args, b.args, s);
      return;
    }
    return None;
  }

  /** One round of the zip loop: the fold moves on to the next pair or stops with None. */
  lemma FoldStep(xs: seq<Term>, ys: seq<Term>, i: int, cur: Subst)
    requires 0 <= i < |xs| == |ys| && Idempotent(cur)
    ensures Unifier(xs[i], ys[i], cur).None? ==> UnifierArgs(xs[i..], ys[i..], cur).None?
    ensures Unifier(xs[i], ys[i], cur).Some? ==>
      UnifierArgs(xs[i..], ys[i..], cur) == UnifierArgs(xs[i + 1..], ys[i + 1..], Unifier(xs[i], ys[i], cur).value)
  {
    var xt := xs[i..];
    var yt := ys[i..];
    assert xt[0] == xs[i] && yt[0] == ys[i];
    assert xt[1..] == xs[i + 1..] && yt[1..] == ys[i + 1..];
  }

  /** Everything one round of the zip loop needs: the measure for the call and how the fold advances. */
  lemma ArgsIteration(xs: seq<Term>, ys: seq<Term>, i: int, cur: Subst, p0: nat, w0: nat)
    requires 0 <= i < |xs| == |ys| && Idempotent(cur)
    requires LexLe(|PoolArgs(xs[i..], ys[i..], cur)|, WeightArgs(xs[i..], ys[i..], cur), p0, w0)
    ensures LexLe(|Pool(xs[i], ys[i], cur)|, Weight(xs[i], ys[i], cur), p0, w0)
    ensures Unifier(xs[i], ys[i], cur).None? ==> UnifierArgs(xs[i..], ys[i..], cur).None?
    ensures Unifier(xs[i], ys[i], cur).Some? ==>
      UnifierArgs(xs[i..], ys[i..], cur) == UnifierArgs(xs[i + 1..], ys[i + 1..], Unifier(xs[i], ys[i], cur).value)
    ensures Unifier(xs[i], ys[i], cur).Some? ==>
      LexLe(|PoolArgs(xs[i + 1..], ys[i + 1..], Unifier(xs[i], ys[i], cur).value)|,
            WeightArgs(xs[i + 1..], ys[i + 1..], Unifier(xs[i], ys[i], cur).value), p0, w0)
  {
    var xt := xs[i..];
    var yt := ys[i..];
    assert xt[0] == xs[i] && yt[0] == ys[i];
    assert xt[1..] == xs[i + 1..] && yt[1..] == ys[i + 1..];
    HeadMeasure(xt, yt, cur);
    FoldStep(xs, ys, i, cur);
    var h := Unifier(xs[i], ys[i], cur);
    if h.Some? {
      TailMeasure(xt, yt, cur, h.value);
    }
  }

  /** The zip loop of unify_terms over two argument lists. */
  method UnifyArgs(xs: seq<Term>, ys: seq<Term>, s: Subst) returns (r: Option<Subst>)
    requires Idempotent(s) && |xs| == |ys|
    ensures r == UnifierArgs(xs, ys, s)
    decreases |PoolArgs(xs, ys, s)|, WeightArgs(xs, ys, s), 1
  {
    ghost var p0 := |PoolArgs(xs, ys, s)|;
    ghost var w0 := WeightArgs(xs, ys, s);
    var cur := s;
    var i := 0;
    while i < |xs|
      invariant 0 <= i <= |xs|
      invariant Idempotent(cur)
      invariant UnifierArgs(xs[i..], ys[i..], cur) == UnifierArgs(xs, ys, s)
      invariant LexLe(|PoolArgs(xs[i..], ys[i..], cur)|, WeightArgs(xs[i..], ys[i..], cur), p0, w0)
    {
      ArgsIteration(xs, ys, i, cur, p0, w0);
      var n := UnifyTerms(xs[i], ys[i], cur);
      if n.None? {
        return None;
      }
      cur := n.value;
      i := i + 1;
    }
    r := Some(cur);
  }

  // ---------------------------------------------------------------------------
  // unify: two literals
  // ---------------------------------------------------------------------------

  /** Two instantiated literals that resolve against each other. */
  predicate Complementary(p: Lit, q: Lit)
  {
    p.pred == q.pred && p.neg != q.neg && p.args == q.args
  }

  /** unify(l1, l2): a unifier only for opposite signs, one predicate, one arity. */
  function LitUnifier(l1: Lit, l2: Lit): (r: Option<Subst>)
    ensures r.Some? ==> Idempotent(r.value)
    ensures r.Some? ==> l1.pred == l2.pred && l1.neg != l2.neg && |l1.args| == |l2.args|
  {
    if l1.pred != l2.pred || l1.neg == l2.neg || |l1.args| != |l2.args| then None
    else UnifierArgs(l1.args, l2.args, map[])
  }

  lemma LitUnifierSound(l1: Lit, l2: Lit)
    ensures LitUnifier(l1, l2).Some? ==>
      Complementary(InstLit(l1, LitUnifier(l1, l2).value), InstLit(l2, LitUnifier(l1, l2).value))
  {
    if l1.pred == l2.pred && l1.neg != l2.neg && |l1.args| == |l2.args| {
      UnifierArgsSound(l1.args, l2.args, map[]);
    }
  }

  /** Any sigma making the literals complementary is an instance of the result. */
  lemma LitUnifierComplete(l1: Lit, l2: Lit, sigma: Subst)
    ensures Complementary(InstLit(l1, sigma), InstLit(l2, sigma)) ==>
      LitUnifier(l1, l2).Some? && MoreGeneral(LitUnifier(l1, l2).value, sigma)
  {
    if Complementary(InstLit(l1, sigma), InstLit(l2, sigma)) {
      UnifierArgsComplete(l1.args, l2.args, map[], sigma);
    }
  }

  /** unify, with the pair of literals passed as parameters. */
  method Unify(l1: Lit, l2: Lit) returns (r: Option<Subst>)
    ensures r == LitUnifier(l1, l2)
  {
    if l1.pred != l2.pred || l1.neg == l2.neg || |l1.args| != |l2.args| {
      return None;
    }
    ghost var goal := UnifierArgs(l1.args, l2.args, map[]);
    var theta: Subst := map[];
    var i := 0;
    assert l1.args[0..] == l1.args && l2.args[0..] == l2.args;
    while i < |l1.args|
      invariant 0 <= i <= |l1.args|
      invariant Idempotent(theta)
      invariant UnifierArgs(l1.args[i..], l2.args[i..], theta) == goal
    {
      var n := UnifyTerms(l1.args[i], l2.args[i], theta);
      FoldStep(l1.args, l2.args, i, theta);
      if n.None? {
        return None;
      }
      theta := n.value;
      i := i + 1;
    }
    assert l1.args[i..] == [] && l2.args[i..] == [];
    r := Some(theta);
  }
}
