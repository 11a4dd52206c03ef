/**
 * Renaming clauses apart and naming their variables canonically
 * (Week1/fol/robinson.py:221-273).
 *
 * standardize_clause gives the variables of a clause, taken in sorted
 * order, the names v<k>, v<k+1>, ... drawn from a counter that the whole
 * run shares; canonicalize gives the variables of a clause set the names
 * x0, x1, ...  Both build a renaming and apply it with apply_sub_lit, that
 * is with the chasing application Resolve.  The counter is threaded
 * through as a value: Standardize takes it and returns its new value.
 *
 * The chase is harmless when no renamed variable is itself one of the new
 * names.  standardize_clause does not ensure that: a clause variable named
 * like a fresh name gets chased on to another fresh name, and two different
 * variables end up as one (StandardizeMergesVariables).  Standardize is the
 * corrected definition, which renames simultaneously, and the one the rest
 * of the model uses; StandardizeAsWritten is the code as written.
 */
module Renaming {
  import opened Wrappers
  import opened Text
  import opened Terms
  import opened Substitution
  import opened Unification

  // ---------------------------------------------------------------------------
  // Names
  // ---------------------------------------------------------------------------

  /** A one-letter prefix followed by a counter in decimal. */
  function PrefixedName(prefix: char, k: nat): (r: string)
    ensures |r| >= 2 && r[0] == prefix && r[1..] == NatToString(k)
  {
    [prefix] + NatToString(k)
  }

  /** fresh_name(k) */
  function FreshName(k: nat): string
  {
    PrefixedName('v', k)
  }

  /** The name canonicalize gives its i-th variable. */
  function CanonName(i: nat): string
  {
    PrefixedName('x', i)
  }

  /** Fresh names never repeat, canonical names never repeat, and the two kinds never meet. */
  lemma NamesDistinct(j: nat, k: nat)
    ensures FreshName(j) == FreshName(k) ==> j == k
    ensures CanonName(j) == CanonName(k) ==> j == k
    ensures FreshName(j) != CanonName(k)
  {
    if FreshName(j) == FreshName(k) {
      NatToStringInjective(j, k);
    }
    if CanonName(j) == CanonName(k) {
      NatToStringInjective(j, k);
    }
  }

  function FreshNames(k: nat, n: nat): (r: seq<string>)
    ensures |r| == n
    ensures forall i :: 0 <= i < n ==> r[i] == FreshName(k + i)
  {
    seq(n, i requires 0 <= i < n => FreshName(k + i))
  }

  function CanonNames(n: nat): (r: seq<string>)
    ensures |r| == n
    ensures forall i :: 0 <= i < n ==> r[i] == CanonName(i)
  {
    seq(n, i requires 0 <= i < n => CanonName(i))
  }

  ghost function FreshRange(lo: nat, hi: nat): set<string>
  {
    set j: nat | lo <= j < hi :: FreshName(j)
  }

  ghost function CanonRange(n: nat): set<string>
  {
    set i: nat | i < n :: CanonName(i)
  }

  predicate Distinct(xs: seq<string>)
  {
    forall i, j :: 0 <= i < j < |xs| ==> xs[i] != xs[j]
  }

  lemma FreshNamesDistinct(k: nat, n: nat)
    ensures Distinct(FreshNames(k, n))
  {
    var r := FreshNames(k, n);
    forall i, j | 0 <= i < j < n ensures r[i] != r[j] {
      NamesDistinct(k + i, k + j);
    }
  }

  lemma CanonNamesDistinct(n: nat)
    ensures Distinct(CanonNames(n))
  {
    var r := CanonNames(n);
    forall i, j | 0 <= i < j < n ensures r[i] != r[j] {
      NamesDistinct(i, j);
    }
  }

  /** sorted(S) lists every element of S exactly once. */
  lemma SortedEnumerates(S: set<string>)
    ensures Distinct(Sorted(S)) && Elems(Sorted(S)) == S
  {
    var r := Sorted(S);
    SortedMembers(S);
    SortedIncreasing(S);
    forall i, j | 0 <= i < j < |r| ensures r[i] != r[j] {
      LexLessIrreflexive(r[i]);
    }
  }

  function Elems<T>(xs: seq<T>): set<T>
  {
    set x | x in xs
  }

  // ---------------------------------------------------------------------------
  // Renamings
  // ---------------------------------------------------------------------------

  /** The renaming that sends the variable xs[i] to the variable ys[i]. */
  function Renamer(xs: seq<string>, ys: seq<string>): (m: Subst)
    requires |xs| == |ys| && Distinct(xs)
    ensures m.Keys == Elems(xs)
    ensures forall i :: 0 <= i < |xs| ==> m[xs[i]] == Var(ys[i])
    ensures Tame(m)
  {
    var m := map i | 0 <= i < |xs| :: xs[i] := Var(ys[i]);
    assert forall x :: x in m ==> m[x].Var? by {
      forall x | x in m ensures m[x].Var? {
        var i :| 0 <= i < |xs| && xs[i] == x;
      }
    }
    m
  }

  /** A map built key by key, as the loops below do, is the renaming. */
  lemma RenamerOfPointwise(m: Subst, xs: seq<string>, ys: seq<string>)
    requires |xs| == |ys| && Distinct(xs)
    requires m.Keys == Elems(xs)
    requires forall i :: 0 <= i < |xs| ==> m[xs[i]] == Var(ys[i])
    ensures m == Renamer(xs, ys)
  {
    var r := Renamer(xs, ys);
    forall x | x in m ensures m[x] == r[x] {
      var i :| 0 <= i < |xs| && xs[i] == x;
    }
  }

  /** A renaming onto names it does not rename is idempotent. */
  lemma RenamerIdempotent(xs: seq<string>, ys: seq<string>)
    requires |xs| == |ys| && Distinct(xs) && Elems(xs) !! Elems(ys)
    ensures Idempotent(Renamer(xs, ys))
  {
    var m := Renamer(xs, ys);
    forall x | x in m ensures Vars(m[x]) !! m.Keys {
      var i :| 0 <= i < |xs| && xs[i] == x;
      assert ys[i] in Elems(ys);
    }
  }

  /** A renaming of all the variables of t leaves only the new names. */
  lemma {:induction false} RenameVars(t: Term, xs: seq<string>, ys: seq<string>)
    requires |xs| == |ys| && Distinct(xs) && Vars(t) <= Elems(xs)
    ensures Vars(Inst(t, Renamer(xs, ys))) <= Elems(ys)
  {
    var m := Renamer(xs, ys);
    forall x | x in Vars(Inst(t, m)) ensures x in Elems(ys) {
      VarsInst(t, m, x);
      var k :| k in m && k in Vars(t) && x in Vars(m[k]);
      var i :| 0 <= i < |xs| && xs[i] == k;
      assert m[k] == Var(ys[i]);
    }
  }

  /** Renaming back with the inverse renaming gives the term again. */
  lemma {:induction false} RenameBack(t: Term, xs: seq<string>, ys: seq<string>)
    requires |xs| == |ys| && Distinct(xs) && Distinct(ys) && Vars(t) <= Elems(xs)
    ensures Inst(Inst(t, Renamer(xs, ys)), Renamer(ys, xs)) == t
    decreases t
  {
    var m, inv := Renamer(xs, ys), Renamer(ys, xs);
    match t
    case Var(n) =>
      var i :| 0 <= i < |xs| && xs[i] == n;
      assert Inst(t, m) == Var(ys[i]);
      assert inv[ys[i]] == Var(xs[i]);
    case Const(_) =>
    case App(f, args) =>
      forall i | 0 <= i < |args| ensures Inst(Inst(args[i], m), inv) == args[i] {
        assert Vars(args[i]) <= VarsArgs(args);
        RenameBack(args[i], xs, ys);
      }
      assert InstArgs(InstArgs(args, m), inv) == args;
  }

  /** Through a renaming of all its variables, apply_sub_term also leaves only the new names. */
  lemma {:induction false} ResolveRenameVars(t: Term, xs: seq<string>, ys: seq<string>)
    requires |xs| == |ys| && Distinct(xs) && Vars(t) <= Elems(xs)
    ensures Vars(Resolve(t, Renamer(xs, ys))) <= Elems(ys)
    decreases t
  {
    var m := Renamer(xs, ys);
    match t
    case Var(n) =>
      var u := Chase(t, m, {});
      assert u == Chase(m[n], m, {} + {n});
      var k :| k in m && u == m[k];
      assert Resolve(t, m) == u;
      var i :| 0 <= i < |xs| && xs[i] == k;
    case Const(_) =>
    case App(f, args) =>
      var ra := ResolveArgs(args, m);
      forall x | x in VarsArgs(ra) ensures x in Elems(ys) {
        VarsArgsMember(ra, x);
        var i :| 0 <= i < |ra| && x in Vars(ra[i]);
        assert Vars(args[i]) <= VarsArgs(args);
        ResolveRenameVars(args[i], xs, ys);
      }
  }

  lemma RenameLitVars(l: Lit, xs: seq<string>, ys: seq<string>)
    requires |xs| == |ys| && Distinct(xs) && VarsArgs(l.args) <= Elems(xs)
    ensures VarsArgs(InstLit(l, Renamer(xs, ys)).args) <= Elems(ys)
  {
    var ia := InstLit(l, Renamer(xs, ys)).args;
    forall x | x in VarsArgs(ia) ensures x in Elems(ys) {
      VarsArgsMember(ia, x);
      var j :| 0 <= j < |ia| && x in Vars(ia[j]);
      RenameVars(l.args[j], xs, ys);
    }
  }

  lemma ResolveRenameLitVars(l: Lit, xs: seq<string>, ys: seq<string>)
    requires |xs| == |ys| && Distinct(xs) && VarsArgs(l.args) <= Elems(xs)
    ensures VarsArgs(SubLit(l, Renamer(xs, ys)).args) <= Elems(ys)
  {
    var ra := SubLit(l, Renamer(xs, ys)).args;
    forall x | x in VarsArgs(ra) ensures x in Elems(ys) {
      VarsArgsMember(ra, x);
      var j :| 0 <= j < |ra| && x in Vars(ra[j]);
      ResolveRenameVars(l.args[j], xs, ys);
    }
  }

  lemma RenameLitBack(l: Lit, xs: seq<string>, ys: seq<string>)
    requires |xs| == |ys| && Distinct(xs) && Distinct(ys) && VarsArgs(l.args) <= Elems(xs)
    ensures InstLit(InstLit(l, Renamer(xs, ys)), Renamer(ys, xs)) == l.(parens := true)
  {
    var args := l.args;
    forall j | 0 <= j < |args|
      ensures Inst(Inst(args[j], Renamer(xs, ys)), Renamer(ys, xs)) == args[j]
    {
      RenameBack(args[j], xs, ys);
    }
    assert InstArgs(InstArgs(args, Renamer(xs, ys)), Renamer(ys, xs)) == args;
  }

  // ---------------------------------------------------------------------------
  // The variables of a clause
  // ---------------------------------------------------------------------------

  /** The variables of a list of literals (the first loop of standardize_clause). */
  function ClauseVars(cl: seq<Lit>): set<string>
    decreases |cl|
  {
    if cl == [] then {} else ClauseVars(cl[..|cl| - 1]) + VarsArgs(cl[|cl| - 1].args)
  }

  lemma {:induction false} ClauseVarsMember(cl: seq<Lit>, x: string)
    ensures x in ClauseVars(cl) <==> exists i :: 0 <= i < |cl| && x in VarsArgs(cl[i].args)
    decreases |cl|
  {
    if cl != [] {
      var front := cl[..|cl| - 1];
      ClauseVarsMember(front, x);
      assert forall i :: 0 <= i < |front| ==> front[i] == cl[i];
    }
  }

  lemma ClauseVarsHas(cl: seq<Lit>, i: int)
    requires 0 <= i < |cl|
    ensures VarsArgs(cl[i].args) <= ClauseVars(cl)
  {
    forall x | x in VarsArgs(cl[i].args) ensures x in ClauseVars(cl) {
      ClauseVarsMember(cl, x);
    }
  }

  /** The variables of a set of literals (the first loop of canonicalize). */
  ghost function SetVars(c: set<Lit>): set<string>
  {
    set l, x | l in c && x in VarsArgs(l.args) :: x
  }

  lemma ClauseVarsElems(cl: seq<Lit>)
    ensures ClauseVars(cl) == SetVars(Elems(cl))
  {
    forall x | x in SetVars(Elems(cl)) ensures x in ClauseVars(cl) {
      var l :| l in cl && x in VarsArgs(l.args);
      var i :| 0 <= i < |cl| && cl[i] == l;
      ClauseVarsHas(cl, i);
    }
    forall x | x in ClauseVars(cl) ensures x in SetVars(Elems(cl)) {
      ClauseVarsMember(cl, x);
    }
  }

  lemma SetVarsAdd(c: set<Lit>, l: Lit)
    ensures SetVars(c + {l}) == SetVars(c) + VarsArgs(l.args)
  {
  }

  /** A renaming of all the variables of a clause leaves only the new names. */
  lemma RenameClauseVars(cl: seq<Lit>, xs: seq<string>, ys: seq<string>)
    requires |xs| == |ys| && Distinct(xs) && ClauseVars(cl) <= Elems(xs)
    ensures ClauseVars(InstClause(cl, Renamer(xs, ys))) <= Elems(ys)
  {
    var out := InstClause(cl, Renamer(xs, ys));
    forall x | x in ClauseVars(out) ensures x in Elems(ys) {
      ClauseVarsMember(out, x);
      var i :| 0 <= i < |out| && x in VarsArgs(out[i].args);
      ClauseVarsHas(cl, i);
      RenameLitVars(cl[i], xs, ys);
    }
  }

  /** On an idempotent substitution, the chasing and the simultaneous application agree on a clause. */
  lemma SubClauseIsInstClause(cl: seq<Lit>, m: Subst)
    requires Idempotent(m)
    ensures Tame(m) && SubClause(cl, m) == InstClause(cl, m)
  {
    forall i | 0 <= i < |cl| ensures SubLit(cl[i], m) == InstLit(cl[i], m) {
      SubLitIsInstLit(cl[i], m);
    }
  }

  // ---------------------------------------------------------------------------
  // standardize_clause
  // ---------------------------------------------------------------------------

  /** The renaming standardize_clause builds for the variables V with the counter at k. */
  ghost function FreshMap(V: set<string>, k: nat): (m: Subst)
    ensures m.Keys == V && Tame(m)
  {
    SortedEnumerates(V);
    Renamer(Sorted(V), FreshNames(k, |V|))
  }

  /** Its inverse. */
  ghost function FreshUnmap(V: set<string>, k: nat): Subst
  {
    FreshNamesDistinct(k, |V|);
    Renamer(FreshNames(k, |V|), Sorted(V))
  }

  function InstClause(cl: seq<Lit>, m: Subst): (r: seq<Lit>)
    ensures |r| == |cl|
    ensures forall i :: 0 <= i < |cl| ==> r[i] == InstLit(cl[i], m)
  {
    seq(|cl|, i requires 0 <= i < |cl| => InstLit(cl[i], m))
  }

  function SubClause(cl: seq<Lit>, m: Subst): (r: seq<Lit>)
    requires Tame(m)
    ensures |r| == |cl|
    ensures forall i :: 0 <= i < |cl| ==> r[i] == SubLit(cl[i], m)
  {
    seq(|cl|, i requires 0 <= i < |cl| => SubLit(cl[i], m))
  }

  /** Simultaneous application to every literal of a set. */
  function InstSet(c: set<Lit>, m: Subst): set<Lit>
  {
    set l | l in c :: InstLit(l, m)
  }

  /** apply_sub_lit on every literal of a set. */
  function SubSet(c: set<Lit>, m: Subst): set<Lit>
    requires Tame(m)
  {
    set l | l in c :: SubLit(l, m)
  }

  lemma ElemsInstClause(cl: seq<Lit>, m: Subst)
    ensures Elems(InstClause(cl, m)) == InstSet(Elems(cl), m)
  {
    var out := InstClause(cl, m);
    forall l | l in InstSet(Elems(cl), m) ensures l in out {
      var l0 :| l0 in cl && l == InstLit(l0, m);
      var i :| 0 <= i < |cl| && cl[i] == l0;
      assert out[i] == l;
    }
  }

  /**
   * standardize_clause with the counter at k, renaming simultaneously: the
   * renamed clause and the new counter.  A clause without variables is
   * returned as it is.
   */
  ghost function Standardize(cl: seq<Lit>, k: nat): (r: (seq<Lit>, nat))
    ensures r.1 == k + |ClauseVars(cl)|
    ensures |r.0| == |cl|
  {
    var V := ClauseVars(cl);
    if V == {} then (cl, k) else (InstClause(cl, FreshMap(V, k)), k + |V|)
  }

  /** standardize_clause as written: the renaming is applied by apply_sub_lit, which chases. */
  ghost function StandardizeAsWritten(cl: seq<Lit>, k: nat): (r: (seq<Lit>, nat))
    ensures r.1 == k + |ClauseVars(cl)|
    ensures |r.0| == |cl|
  {
    var V := ClauseVars(cl);
    if V == {} then (cl, k) else (SubClause(cl, FreshMap(V, k)), k + |V|)
  }

  /** The same renaming, on a clause held as a set. */
  ghost function StandardizeSet(c: set<Lit>, k: nat): (r: (set<Lit>, nat))
    ensures r.1 == k + |SetVars(c)|
  {
    var V := SetVars(c);
    if V == {} then (c, k) else (InstSet(c, FreshMap(V, k)), k + |V|)
  }

  /** Standardizing a list and standardizing the set of its literals agree. */
  lemma StandardizeElems(cl: seq<Lit>, k: nat)
    ensures Elems(Standardize(cl, k).0) == StandardizeSet(Elems(cl), k).0
    ensures Standardize(cl, k).1 == StandardizeSet(Elems(cl), k).1
  {
    ClauseVarsElems(cl);
    var V := ClauseVars(cl);
    if V != {} {
      ElemsInstClause(cl, FreshMap(V, k));
    }
  }

  lemma FreshNamesRange(k: nat, n: nat)
    ensures Elems(FreshNames(k, n)) <= FreshRange(k, k + n)
  {
    var names := FreshNames(k, n);
    forall x | x in Elems(names) ensures x in FreshRange(k, k + n) {
      var j :| 0 <= j < n && names[j] == x;
      assert x == FreshName(k + j);
    }
  }

  /** A standardized clause uses only the fresh names v<k> .. v<k'-1> it drew from the counter. */
  lemma StandardizeFresh(cl: seq<Lit>, k: nat)
    ensures ClauseVars(Standardize(cl, k).0) <= FreshRange(k, Standardize(cl, k).1)
  {
    var V := ClauseVars(cl);
    if V != {} {
      var vs, names := Sorted(V), FreshNames(k, |V|);
      SortedEnumerates(V);
      assert Standardize(cl, k).0 == InstClause(cl, Renamer(vs, names));
      RenameClauseVars(cl, vs, names);
      FreshNamesRange(k, |V|);
    }
  }

  /**
   * standardize_pair: the two clauses come out with disjoint variables,
   * because the second draws its names after the first.
   */
  lemma StandardizeApart(c1: seq<Lit>, c2: seq<Lit>, k: nat)
    ensures ClauseVars(Standardize(c1, k).0) !! ClauseVars(Standardize(c2, Standardize(c1, k).1).0)
  {
    var k1 := Standardize(c1, k).1;
    var k2 := Standardize(c2, k1).1;
    StandardizeFresh(c1, k);
    StandardizeFresh(c2, k1);
    forall i: nat, j: nat | k <= i < k1 <= j < k2 ensures FreshName(i) != FreshName(j) {
      NamesDistinct(i, j);
    }
  }

  /** Standardizing is a renaming: the inverse renaming gives each literal back. */
  lemma StandardizeUndo(cl: seq<Lit>, k: nat, i: nat)
    requires i < |cl|
    ensures ClauseVars(cl) != {} ==>
      InstLit(Standardize(cl, k).0[i], FreshUnmap(ClauseVars(cl), k)) == cl[i].(parens := true)
  {
    var V := ClauseVars(cl);
    if V != {} {
      var out := Standardize(cl, k).0;
      ClauseVarsHas(cl, i);
      FreshUndo(V, k, cl[i]);
      assert out == InstClause(cl, FreshMap(V, k));
      assert out[i] == InstLit(cl[i], FreshMap(V, k));
    }
  }

  lemma FreshUndo(V: set<string>, k: nat, l: Lit)
    requires VarsArgs(l.args) <= V
    ensures InstLit(InstLit(l, FreshMap(V, k)), FreshUnmap(V, k)) == l.(parens := true)
  {
    var vs, names := Sorted(V), FreshNames(k, |V|);
    SortedEnumerates(V);
    FreshNamesDistinct(k, |V|);
    RenameLitBack(l, vs, names);
  }

  /**
   * When none of the clause's variables is among the names it is given,
   * the chase of apply_sub_lit never moves twice: standardize_clause as
   * written does rename simultaneously.
   */
  lemma AsWrittenAgrees(cl: seq<Lit>, k: nat)
    ensures ClauseVars(cl) !! FreshRange(k, k + |ClauseVars(cl)|) ==>
      StandardizeAsWritten(cl, k) == Standardize(cl, k)
  {
    var V := ClauseVars(cl);
    if V != {} && V !! FreshRange(k, k + |V|) {
      FreshMapIdempotent(V, k);
      SubClauseIsInstClause(cl, FreshMap(V, k));
    }
  }

  /** Renaming V to fresh names none of which is in V gives an idempotent map. */
  lemma FreshMapIdempotent(V: set<string>, k: nat)
    requires V !! FreshRange(k, k + |V|)
    ensures Idempotent(FreshMap(V, k))
  {
    var vs, names := Sorted(V), FreshNames(k, |V|);
    SortedEnumerates(V);
    FreshNamesRange(k, |V|);
    DisjointWithin(Elems(vs), Elems(names), FreshRange(k, k + |V|));
    RenamerIdempotent(vs, names);
  }

  lemma DisjointWithin<T>(A: set<T>, B: set<T>, C: set<T>)
    requires A !! C && B <= C
    ensures A !! B
  {
  }

  /**
   * Inside the main loop every clause carries canonical names x<i> only, so
   * there standardize_clause as written renames correctly.
   */
  lemma CanonicalClauseAgrees(cl: seq<Lit>, k: nat, n: nat)
    ensures ClauseVars(cl) <= CanonRange(n) ==> StandardizeAsWritten(cl, k) == Standardize(cl, k)
  {
    var V := ClauseVars(cl);
    if V <= CanonRange(n) {
      forall i: nat, j: nat | i < n && k <= j ensures FreshName(j) != CanonName(i) {
        NamesDistinct(j, i);
      }
      AsWrittenAgrees(cl, k);
    }
  }

  /** The clause [P(v1, y)] of the example below. */
  function MergeInput(): seq<Lit>
  {
    [Lit(false, "P", [Var("v1"), Var("y")], true)]
  }

  lemma MergeVars()
    ensures ClauseVars(MergeInput()) == {"v1", "y"}
  {
    var l := MergeInput()[0];
    assert MergeInput()[..0] == [];
    assert l.args[1..][1..] == [];
    assert VarsArgs(l.args) == {"v1", "y"};
  }

  lemma MergeSorted()
    ensures Sorted({"v1", "y"}) == ["v1", "y"]
  {
    var V: set<string> := {"v1", "y"};
    assert IsLeast("v1", V);
    SortedUnfold(V, "v1");
    assert V - {"v1"} == {"y"};
    SortedMembers({"y"});
  }

  lemma MergeNames()
    ensures FreshNames(0, 2) == ["v0", "v1"]
  {
    assert NatToString(0) == "0" && NatToString(1) == "1";
    var names := FreshNames(0, 2);
    assert names[0] == FreshName(0) == "v0";
    assert names[1] == FreshName(1) == "v1";
  }

  lemma MergeMap()
    ensures FreshMap({"v1", "y"}, 0).Keys == {"v1", "y"}
    ensures FreshMap({"v1", "y"}, 0)["v1"] == Var("v0") && FreshMap({"v1", "y"}, 0)["y"] == Var("v1")
  {
    var V: set<string> := {"v1", "y"};
    MergeSorted();
    MergeNames();
    assert |V| == 2;
    FreshMapUnfold(V, 0);
    RenamerPair(["v1", "y"], ["v0", "v1"]);
  }

  /** FreshMap is the renaming of the names in sorted order. */
  lemma FreshMapUnfold(V: set<string>, k: nat)
    ensures Distinct(Sorted(V)) && FreshMap(V, k) == Renamer(Sorted(V), FreshNames(k, |V|))
  {
    SortedEnumerates(V);
  }

  lemma RenamerPair(xs: seq<string>, ys: seq<string>)
    requires |xs| == 2 && |ys| == 2 && xs[0] != xs[1]
    ensures Distinct(xs) && Renamer(xs, ys)[xs[0]] == Var(ys[0]) && Renamer(xs, ys)[xs[1]] == Var(ys[1])
  {
  }

  /**
   * With the counter at 0, standardize_clause maps v1 to v0 and y to v1,
   * and the chase carries y on to v0: P(v1, y) becomes P(v0, v0).  The
   * simultaneous renaming gives P(v0, v1).
   */
  lemma StandardizeMergesVariables()
    ensures StandardizeAsWritten(MergeInput(), 0).0 == [Lit(false, "P", [Var("v0"), Var("v0")], true)]
    ensures Standardize(MergeInput(), 0).0 == [Lit(false, "P", [Var("v0"), Var("v1")], true)]
  {
    MergeVars();
    MergeMap();
    var m := FreshMap({"v1", "y"}, 0);
    MergeArgs(m);
    StandardizeUnfold(MergeInput(), 0);
    MergeAsWritten(MergeInput(), m);
    MergeCorrected(MergeInput(), m);
  }

  /** Both versions of standardize_clause, on a clause with variables. */
  lemma StandardizeUnfold(cl: seq<Lit>, k: nat)
    ensures ClauseVars(cl) != {} ==>
      Standardize(cl, k).0 == InstClause(cl, FreshMap(ClauseVars(cl), k)) &&
      StandardizeAsWritten(cl, k).0 == SubClause(cl, FreshMap(ClauseVars(cl), k))
  {
  }

  lemma MergeAsWritten(cl: seq<Lit>, m: Subst)
    requires |cl| == 1 && cl[0].neg == false && cl[0].pred == "P" && cl[0].args == [Var("v1"), Var("y")]
    requires Tame(m) && ResolveArgs([Var("v1"), Var("y")], m) == [Var("v0"), Var("v0")]
    ensures SubClause(cl, m) == [Lit(false, "P", [Var("v0"), Var("v0")], true)]
  {
    var out := SubClause(cl, m);
    assert out[0] == SubLit(cl[0], m);
    assert out == [out[0]];
  }

  lemma MergeCorrected(cl: seq<Lit>, m: Subst)
    requires |cl| == 1 && cl[0].neg == false && cl[0].pred == "P" && cl[0].args == [Var("v1"), Var("y")]
    requires InstArgs([Var("v1"), Var("y")], m) == [Var("v0"), Var("v1")]
    ensures InstClause(cl, m) == [Lit(false, "P", [Var("v0"), Var("v1")], true)]
  {
    var out := InstClause(cl, m);
    assert out[0] == InstLit(cl[0], m);
    assert out == [out[0]];
  }

  /** Argument by argument: the chase merges, the simultaneous renaming does not. */
  lemma MergeArgs(m: Subst)
    requires m.Keys == {"v1", "y"} && m["v1"] == Var("v0") && m["y"] == Var("v1")
    ensures Tame(m)
    ensures ResolveArgs([Var("v1"), Var("y")], m) == [Var("v0"), Var("v0")]
    ensures InstArgs([Var("v1"), Var("y")], m) == [Var("v0"), Var("v1")]
  {
    MergeChase(m);
    var args := [Var("v1"), Var("y")];
    assert ResolveArgs(args, m)[0] == Resolve(args[0], m);
    assert ResolveArgs(args, m)[1] == Resolve(args[1], m);
  }

  /** The chase through v1 -> v0, y -> v1. */
  lemma MergeChase(m: Subst)
    requires m.Keys == {"v1", "y"} && m["v1"] == Var("v0") && m["y"] == Var("v1")
    ensures Tame(m)
    ensures Resolve(Var("y"), m) == Var("v0") && Resolve(Var("v1"), m) == Var("v0")
  {
    forall k | k in m ensures m[k].Var? {
      assert k == "v1" || k == "y";
    }
    var s0: set<string> := {};
    var s1, s2, t1 := s0 + {"y"}, s0 + {"y"} + {"v1"}, s0 + {"v1"};
    assert "v0" !in m && "v1" !in s1;
    assert Chase(Var("v1"), m, s1) == Chase(Var("v0"), m, s2) == Var("v0");
    assert Chase(Var("y"), m, s0) == Chase(Var("v1"), m, s1);
    assert Chase(Var("v1"), m, s0) == Chase(Var("v0"), m, t1) == Var("v0");
  }

  /**
   * The merge loses a resolvent: P(v0, v0) no longer unifies with
   * ~P(A, B), while P(v0, v1) does.  So [P(v1, y)] and [~P(A, B)], an
   * unsatisfiable pair, no longer resolve to the empty clause.
   */
  lemma MergeLosesResolvent()
    ensures LitUnifier(Lit(false, "P", [Var("v0"), Var("v0")], true),
                       Lit(true, "P", [Const("A"), Const("B")], true)).None?
    ensures LitUnifier(Lit(false, "P", [Var("v0"), Var("v1")], true),
                       Lit(true, "P", [Const("A"), Const("B")], true)).Some?
  {
    var p, q := Lit(false, "P", [Var("v0"), Var("v0")], true), Lit(true, "P", [Const("A"), Const("B")], true);
    LitUnifierSound(p, q);
    var p' := Lit(false, "P", [Var("v0"), Var("v1")], true);
    var sigma := map["v0" := Const("A"), "v1" := Const("B")];
    assert InstArgs(p'.args, sigma) == [Const("A"), Const("B")];
    assert InstArgs(q.args, sigma) == [Const("A"), Const("B")];
    LitUnifierComplete(p', q, sigma);
  }

  // ---------------------------------------------------------------------------
  // canonicalize
  // ---------------------------------------------------------------------------

  /** The renaming of the names V that canonicalize builds: the i-th in sorted order becomes x<i>. */
  ghost function CanonRenamer(V: set<string>): (m: Subst)
    ensures m.Keys == V && Tame(m)
  {
    SortedEnumerates(V);
    Renamer(Sorted(V), CanonNames(|V|))
  }

  /** The renaming canonicalize builds for the variables of c. */
  ghost function CanonMap(c: set<Lit>): (m: Subst)
    ensures m.Keys == SetVars(c) && Tame(m)
  {
    CanonRenamer(SetVars(c))
  }

  /** Its inverse. */
  ghost function CanonUnmap(c: set<Lit>): Subst
  {
    CanonNamesDistinct(|SetVars(c)|);
    Renamer(CanonNames(|SetVars(c)|), Sorted(SetVars(c)))
  }

  /** canonicalize: a clause set without variables is returned as it is. */
  ghost function Canonical(c: set<Lit>): set<Lit>
  {
    if SetVars(c) == {} then c else SubSet(c, CanonMap(c))
  }

  /** canonicalize never turns a non-empty clause into the empty one. */
  lemma CanonicalNonEmpty(c: set<Lit>)
    requires c != {}
    ensures Canonical(c) != {}
  {
    var l :| l in c;
    if SetVars(c) != {} {
      assert SubLit(l, CanonMap(c)) in Canonical(c);
    }
  }

  lemma CanonNamesRange(n: nat)
    ensures Elems(CanonNames(n)) <= CanonRange(n)
  {
    var names := CanonNames(n);
    forall x | x in Elems(names) ensures x in CanonRange(n) {
      var j :| 0 <= j < n && names[j] == x;
      assert x == CanonName(j);
    }
  }

  /** A canonical clause uses only the names x0 .. x<n-1>, n the number of variables renamed. */
  lemma CanonicalVars(c: set<Lit>)
    ensures SetVars(Canonical(c)) <= CanonRange(|SetVars(c)|)
  {
    var V := SetVars(c);
    if V != {} {
      var vs, names := Sorted(V), CanonNames(|V|);
      SortedEnumerates(V);
      CanonNamesRange(|V|);
      assert CanonMap(c) == Renamer(vs, names);
      SubSetVars(c, vs, names);
    }
  }

  /** A renaming of all the variables of a set by apply_sub_lit leaves only the new names. */
  lemma SubSetVars(c: set<Lit>, xs: seq<string>, ys: seq<string>)
    requires |xs| == |ys| && Distinct(xs) && SetVars(c) <= Elems(xs)
    ensures SetVars(SubSet(c, Renamer(xs, ys))) <= Elems(ys)
  {
    var m := Renamer(xs, ys);
    forall l | l in c ensures VarsArgs(SubLit(l, m).args) <= Elems(ys) {
      assert VarsArgs(l.args) <= SetVars(c);
      ResolveRenameLitVars(l, xs, ys);
    }
  }

  /** On an idempotent substitution, the chasing and the simultaneous application agree on a set. */
  lemma SubSetIsInstSet(c: set<Lit>, m: Subst)
    requires Idempotent(m)
    ensures Tame(m) && SubSet(c, m) == InstSet(c, m)
  {
    forall l | l in c ensures SubLit(l, m) == InstLit(l, m) {
      SubLitIsInstLit(l, m);
    }
  }

  /** The renaming to canonical names is idempotent when none of the names is canonical already. */
  lemma CanonRenamerIdempotent(V: set<string>)
    requires V !! CanonRange(|V|)
    ensures Idempotent(CanonRenamer(V))
  {
    var vs, names := Sorted(V), CanonNames(|V|);
    SortedEnumerates(V);
    CanonNamesRange(|V|);
    RenamerIdempotent(vs, names);
  }

  /**
   * When no variable of the set is already a canonical name, canonicalize
   * renames simultaneously.
   */
  lemma CanonicalIsRenaming(c: set<Lit>)
    ensures SetVars(c) != {} && SetVars(c) !! CanonRange(|SetVars(c)|) ==>
      Canonical(c) == InstSet(c, CanonMap(c))
  {
    if SetVars(c) != {} && SetVars(c) !! CanonRange(|SetVars(c)|) {
      CanonRenamerIdempotent(SetVars(c));
      SubSetIsInstSet(c, CanonMap(c));
    }
  }

  /** The inverse renaming gives each literal of the set back. */
  lemma CanonicalUndo(c: set<Lit>, l: Lit)
    requires l in c
    ensures InstLit(InstLit(l, CanonMap(c)), CanonUnmap(c)) == l.(parens := true)
  {
    var V := SetVars(c);
    var vs, names := Sorted(V), CanonNames(|V|);
    SortedEnumerates(V);
    CanonNamesDistinct(|V|);
    assert VarsArgs(l.args) <= V;
    assert CanonMap(c) == Renamer(vs, names);
    RenameLitBack(l, vs, names);
  }

  // ---------------------------------------------------------------------------
  // The loops
  // ---------------------------------------------------------------------------

  /** The first loop of standardize_clause: every variable of every literal goes into `seen`. */
  method CollectVars(cl: seq<Lit>) returns (seen: set<string>)
    ensures seen == ClauseVars(cl)
  {
    seen := {};
    for i := 0 to |cl|
      invariant seen == ClauseVars(cl[..i])
    {
      var vs := VarsInLit(cl[i]);
      var before := seen;
      for j := 0 to |vs|
        invariant seen == before + Elems(vs[..j])
      {
        seen := seen + {vs[j]};
      }
      assert vs[..|vs|] == vs;
      assert cl[..i + 1][..i] == cl[..i];
    }
    assert cl[..|cl|] == cl;
  }

  /** The first loop of canonicalize, over a set in no particular order. */
  method CollectSetVars(c: set<Lit>) returns (allv: set<string>)
    ensures allv == SetVars(c)
  {
    allv := {};
    var rest := c;
    while rest != {}
      invariant rest <= c
      invariant allv == SetVars(c - rest)
      decreases |rest|
    {
      var l :| l in rest;
      var vs := VarsInLit(l);
      var before := allv;
      for j := 0 to |vs|
        invariant allv == before + Elems(vs[..j])
      {
        allv := allv + {vs[j]};
      }
      assert vs[..|vs|] == vs;
      SetVarsAdd(c - rest, l);
      assert c - (rest - {l}) == (c - rest) + {l};
      rest := rest - {l};
    }
    assert c - rest == c;
  }

  /** The least name of a non-empty set. */
  method Least(S: set<string>) returns (m: string)
    requires S != {}
    ensures IsLeast(m, S)
  {
    m :| m in S;
    var rest := S - {m};
    while rest != {}
      invariant m in S && rest <= S && m !in rest
      invariant forall y :: y in S && y !in rest && y != m ==> LexLess(m, y)
      decreases |rest|
    {
      var y :| y in rest;
      if LexLess(y, m) {
        forall z | z in S && z !in rest && z != y ensures LexLess(y, z) {
          if z != m {
            LexLessTrans(y, m, z);
          }
        }
        m := y;
      } else {
        LexLessTotal(m, y);
      }
      rest := rest - {y};
    }
  }

  /** sorted(S), by repeatedly taking the least remaining name. */
  method SortNames(S: set<string>) returns (r: seq<string>)
    ensures r == Sorted(S)
  {
    r := [];
    var rest := S;
    while rest != {}
      invariant r + Sorted(rest) == Sorted(S)
      decreases |rest|
    {
      var m := Least(rest);
      SortedUnfold(rest, m);
      assert (r + [m]) + Sorted(rest - {m}) == r + Sorted(rest);
      r := r + [m];
      rest := rest - {m};
    }
  }

  /** The second loop of standardize_clause: the names in order get v<counter>, v<counter+1>, ... */
  method FreshMapping(vs: seq<string>, k: nat) returns (mapping: Subst, counter: nat)
    requires Distinct(vs)
    ensures mapping == Renamer(vs, FreshNames(k, |vs|))
    ensures counter == k + |vs|
  {
    mapping := map[];
    counter := k;
    for i := 0 to |vs|
      invariant counter == k + i
      invariant mapping.Keys == Elems(vs[..i])
      invariant forall j :: 0 <= j < i ==> mapping[vs[j]] == Var(FreshName(k + j))
    {
      mapping := mapping[vs[i] := Var(FreshName(counter))];
      counter := counter + 1;
    }
    assert vs[..|vs|] == vs;
    RenamerOfPointwise(mapping, vs, FreshNames(k, |vs|));
  }

  /** The closing list comprehension, corrected to rename every literal simultaneously. */
  method RenameClause(cl: seq<Lit>, m: Subst) returns (out: seq<Lit>)
    ensures out == InstClause(cl, m)
  {
    out := [];
    for i := 0 to |cl|
      invariant |out| == i
      invariant forall j :: 0 <= j < i ==> out[j] == InstLit(cl[j], m)
    {
      out := out + [InstLit(cl[i], m)];
    }
  }

  /**
   * standardize_clause with the counter at k, corrected to rename
   * simultaneously; returns the clause and the new counter.
   */
  method StandardizeClause(cl: seq<Lit>, k: nat) returns (out: seq<Lit>, counter: nat)
    ensures out == Standardize(cl, k).0 && counter == Standardize(cl, k).1
  {
    var seen := CollectVars(cl);
    var vs := SortNames(seen);
    SortedEnumerates(seen);
    var mapping;
    mapping, counter := FreshMapping(vs, k);
    assert counter == k + |seen|;
    if mapping == map[] {
      assert seen == {};
      return cl, counter;
    }
    assert seen != {};
    assert mapping == FreshMap(seen, k);
    out := RenameClause(cl, mapping);
  }

  /** standardize_pair: both clauses renamed apart, the second after the first. */
  method StandardizePair(c1: seq<Lit>, c2: seq<Lit>, k: nat) returns (o1: seq<Lit>, o2: seq<Lit>, counter: nat)
    ensures o1 == Standardize(c1, k).0
    ensures o2 == Standardize(c2, Standardize(c1, k).1).0
    ensures counter == Standardize(c2, Standardize(c1, k).1).1
    ensures ClauseVars(o1) !! ClauseVars(o2)
  {
    var k1;
    o1, k1 := StandardizeClause(c1, k);
    assert k1 == Standardize(c1, k).1;
    o2, counter := StandardizeClause(c2, k1);
    StandardizeApart(c1, c2, k);
  }

  /** The second loop of canonicalize: the i-th name in order gets x<i>. */
  method CanonMapping(vs: seq<string>) returns (mapping: Subst)
    requires Distinct(vs)
    ensures mapping == Renamer(vs, CanonNames(|vs|))
  {
    mapping := map[];
    for i := 0 to |vs|
      invariant mapping.Keys == Elems(vs[..i])
      invariant forall j :: 0 <= j < i ==> mapping[vs[j]] == Var(CanonName(j))
    {
      mapping := mapping[vs[i] := Var(CanonName(i))];
    }
    assert vs[..|vs|] == vs;
    RenamerOfPointwise(mapping, vs, CanonNames(|vs|));
  }

  /** The closing set comprehension of canonicalize: apply_sub_lit on every literal. */
  method ApplySubSet(c: set<Lit>, m: Subst) returns (r: set<Lit>)
    requires Tame(m)
    ensures r == SubSet(c, m)
  {
    r := {};
    var rest := c;
    while rest != {}
      invariant rest <= c
      invariant r == set l | l in c - rest :: SubLit(l, m)
      decreases |rest|
    {
      var l :| l in rest;
      var nl := ApplySubLit(l, m);
      assert c - (rest - {l}) == (c - rest) + {l};
      r := r + {nl};
      rest := rest - {l};
    }
    assert c - rest == c;
  }

  /** canonicalize */
  method Canonicalize(c: set<Lit>) returns (r: set<Lit>)
    ensures r == Canonical(c)
  {
    var allv := CollectSetVars(c);
    var vs := SortNames(allv);
    SortedEnumerates(allv);
    var mapping := CanonMapping(vs);
    if mapping == map[] {
      assert allv == {};
      return c;
    }
    assert mapping == CanonMap(c);
    r := ApplySubSet(c, mapping);
  }
}
