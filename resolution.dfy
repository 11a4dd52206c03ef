/**
 * robinson_resolution: saturation of a knowledge base of canonical clauses.
 *
 * Every round lists the clauses of kb in some order, standardizes each pair
 * (i, j), i < j, apart with the running counter, resolves every pair of
 * literals the unifier accepts, and records the canonical form of every new
 * resolvent.  An empty resolvent ends the search with UNSAT; a round that
 * records nothing, or running out of rounds, ends it with TIMEOUT.
 *
 * The order in which Python lists a set is left open: ListOf picks one.
 * The counter of fresh names is threaded through as a value.  Pairs are
 * standardized by the simultaneous renaming; on clauses of kb, which carry
 * canonical names only, that is what the code as written does too
 * (ListedCanonicalAgrees).
 */
module Resolution {
  import opened Wrappers
  import opened Terms
  import opened Substitution
  import opened Unification
  import opened Renaming

  /** The two answers.  The proof list returned beside them is always empty. */
  datatype Outcome = Unsat | Timeout

  /** A clause of kb: a frozenset of literals. */
  type Clause = set<Lit>

  // ---------------------------------------------------------------------------
  // One resolution step
  // ---------------------------------------------------------------------------

  /** Every literal of xs but l, rewritten by apply_sub_lit. */
  function RestImage(xs: seq<Lit>, l: Lit, sub: Subst): set<Lit>
    requires Tame(sub)
  {
    set t | t in xs && t != l :: SubLit(t, sub)
  }

  lemma RestImageSnoc(xs: seq<Lit>, x: Lit, l: Lit, sub: Subst)
    requires Tame(sub)
    ensures RestImage(xs + [x], l, sub) == RestImage(xs, l, sub) + (if x != l then {SubLit(x, sub)} else {})
  {
    assert forall t :: t in xs + [x] <==> t in xs || t == x;
  }

  /** Every literal of a2 but l1 and of b2 but l2, rewritten by apply_sub_lit. */
  function Resolvent(a2: seq<Lit>, b2: seq<Lit>, l1: Lit, l2: Lit, sub: Subst): set<Lit>
    requires Tame(sub)
  {
    RestImage(a2, l1, sub) + RestImage(b2, l2, sub)
  }

  /** The resolvent upon the i-th literal of a2 and the j-th of b2, if unify accepts them. */
  function ResolventAt(a2: seq<Lit>, b2: seq<Lit>, i: nat, j: nat): (r: Option<set<Lit>>)
    requires i < |a2| && j < |b2|
    ensures r.Some? <==> LitUnifier(a2[i], b2[j]).Some?
  {
    match LitUnifier(a2[i], b2[j])
    case None => None
    case Some(sub) =>
      IdempotentIsTame(sub);
      Some(Resolvent(a2, b2, a2[i], b2[j], sub))
  }

  /**
   * The literals resolved upon clash: after the unifier they are one atom
   * with opposite signs.
   */
  lemma ResolvedLiteralsClash(a2: seq<Lit>, b2: seq<Lit>, i: nat, j: nat)
    requires i < |a2| && j < |b2|
    ensures LitUnifier(a2[i], b2[j]).Some? ==>
      var sub := LitUnifier(a2[i], b2[j]).value;
      Tame(sub) && Complementary(SubLit(a2[i], sub), SubLit(b2[j], sub))
  {
    if LitUnifier(a2[i], b2[j]).Some? {
      var sub := LitUnifier(a2[i], b2[j]).value;
      SubLitIsInstLit(a2[i], sub);
      SubLitIsInstLit(b2[j], sub);
      LitUnifierSound(a2[i], b2[j]);
    }
  }

  /** The resolvent is empty exactly when both clauses are the unit clauses of the literals resolved upon. */
  lemma ResolventEmpty(a2: seq<Lit>, b2: seq<Lit>, i: nat, j: nat)
    requires i < |a2| && j < |b2|
    ensures ResolventAt(a2, b2, i, j) == Some({}) <==>
      LitUnifier(a2[i], b2[j]).Some? && Elems(a2) == {a2[i]} && Elems(b2) == {b2[j]}
  {
    if LitUnifier(a2[i], b2[j]).Some? {
      var sub := LitUnifier(a2[i], b2[j]).value;
      IdempotentIsTame(sub);
      var r := Resolvent(a2, b2, a2[i], b2[j], sub);
      if Elems(a2) != {a2[i]} {
        var t :| t in Elems(a2) && t != a2[i];
        assert SubLit(t, sub) in r;
      }
      if Elems(b2) != {b2[j]} {
        var t :| t in Elems(b2) && t != b2[j];
        assert SubLit(t, sub) in r;
      }
      assert ResolventAt(a2, b2, i, j) == Some(r);
      if Elems(a2) == {a2[i]} && Elems(b2) == {b2[j]} {
        forall t | t in a2 ensures t == a2[i] {
          assert t in Elems(a2);
        }
        forall t | t in b2 ensures t == b2[j] {
          assert t in Elems(b2);
        }
        assert r == {};
      }
    }
  }

  /** r is the resolvent of some pair of literals of a2 and b2. */
  ghost predicate IsResolventOf(a2: seq<Lit>, b2: seq<Lit>, r: set<Lit>)
  {
    exists i: nat, j: nat :: i < |a2| && j < |b2| && ResolventAt(a2, b2, i, j) == Some(r)
  }

  /** standardize_pair on the listings a and b with the counter at k: both clauses and the new counter. */
  ghost function StdPair(a: seq<Lit>, b: seq<Lit>, k: nat): (r: (seq<Lit>, seq<Lit>, nat))
    ensures ClauseVars(r.0) !! ClauseVars(r.1)
    ensures r.2 == k + |ClauseVars(a)| + |ClauseVars(b)|
  {
    StandardizeApart(a, b, k);
    var s1 := Standardize(a, k);
    var s2 := Standardize(b, s1.1);
    (s1.0, s2.0, s2.1)
  }

  /** r is a resolvent of the listings a and b, standardized apart with the counter at k. */
  ghost predicate Resolves(a: seq<Lit>, b: seq<Lit>, k: nat, r: set<Lit>)
  {
    IsResolventOf(StdPair(a, b, k).0, StdPair(a, b, k).1, r)
  }

  /** list(c): xs holds every element of c once. */
  ghost predicate Enumerates<T>(xs: seq<T>, c: set<T>)
  {
    Elems(xs) == c && forall i, j :: 0 <= i < j < |xs| ==> xs[i] != xs[j]
  }

  /** r is a resolvent of the clauses c1 and c2, for some listing of each and some counter. */
  ghost predicate PairResolvent(c1: Clause, c2: Clause, r: set<Lit>)
  {
    exists a, b, k: nat :: Enumerates(a, c1) && Enumerates(b, c2) && Resolves(a, b, k, r)
  }

  /** Every resolvent of a and b (counter k) is non-empty and has its canonical form in S. */
  ghost predicate Covered(S: set<Clause>, a: seq<Lit>, b: seq<Lit>, k: nat)
  {
    forall r :: Resolves(a, b, k, r) ==> r != {} && Canonical(r) in S
  }

  /** The pair (c1, c2) has been resolved, for some listing and counter, into S. */
  ghost predicate PairCovered(S: set<Clause>, c1: Clause, c2: Clause)
  {
    exists a, b, k: nat :: Enumerates(a, c1) && Enumerates(b, c2) && Covered(S, a, b, k)
  }

  /** Nothing new comes out of any pair of distinct clauses of kb. */
  ghost predicate Saturated(kb: set<Clause>)
  {
    forall c1, c2 {:trigger PairCovered(kb, c1, c2)} :: c1 in kb && c2 in kb && c1 != c2 ==>
      PairCovered(kb, c1, c2) || PairCovered(kb, c2, c1)
  }

  /** c is the canonical form of a non-empty resolvent of two distinct clauses of kb. */
  ghost predicate Produced(kb: set<Clause>, c: Clause)
  {
    exists c1, c2, r :: c1 in kb && c2 in kb && c1 != c2 && PairResolvent(c1, c2, r) && r != {} && c == Canonical(r)
  }

  /** What a round may add: new clauses, each produced from kb. */
  ghost predicate SoundAddition(kb: set<Clause>, produced: set<Clause>)
  {
    produced !! kb && forall c {:trigger Produced(kb, c)} :: c in produced ==> Produced(kb, c)
  }

  lemma PairCoveredMono(S: set<Clause>, S': set<Clause>, c1: Clause, c2: Clause)
    requires S <= S'
    ensures PairCovered(S, c1, c2) ==> PairCovered(S', c1, c2)
  {
    if PairCovered(S, c1, c2) {
      var a, b, k: nat :| Enumerates(a, c1) && Enumerates(b, c2) && Covered(S, a, b, k);
      assert Covered(S', a, b, k);
    }
  }

  // ---------------------------------------------------------------------------
  // Derivations
  // ---------------------------------------------------------------------------

  /** kb's first clauses, from the clauses of the input and the counter k: each standardized, then canonicalized. */
  ghost function InitKb(clauses: seq<seq<Lit>>, k: nat): (r: (set<Clause>, nat))
    ensures |r.0| <= |clauses|
    decreases |clauses|
  {
    if clauses == [] then ({}, k)
    else
      var s := Standardize(clauses[0], k);
      var rest := InitKb(clauses[1..], s.1);
      ({Canonical(Elems(s.0))} + rest.0, rest.1)
  }

  /** Without an empty input clause, kb starts without the empty clause. */
  lemma {:induction false} InitKbNoEmpty(clauses: seq<seq<Lit>>, k: nat)
    requires !HasEmptyClause(clauses)
    ensures NoEmptyClause(InitKb(clauses, k).0)
    decreases |clauses|
  {
    if clauses != [] {
      var s := Standardize(clauses[0], k);
      assert |clauses[0]| != 0;
      assert s.0[0] in Elems(s.0);
      CanonicalNonEmpty(Elems(s.0));
      assert !HasEmptyClause(clauses[1..]) by {
        forall i | 0 <= i < |clauses[1..]| ensures |clauses[1..][i]| != 0 {
          assert clauses[1..][i] == clauses[i + 1];
        }
      }
      InitKbNoEmpty(clauses[1..], s.1);
    }
  }

  /** c is derivable from init in at most n rounds of resolution. */
  ghost predicate Derivable(init: set<Clause>, c: Clause, n: nat)
    decreases n
  {
    c in init ||
    (n > 0 &&
      (Derivable(init, c, n - 1) ||
       exists c1, c2, r ::
         Derivable(init, c1, n - 1) && Derivable(init, c2, n - 1) &&
         c1 != c2 && PairResolvent(c1, c2, r) && c == Canonical(r)))
  }

  /** A round adds only clauses derivable in one more round. */
  lemma RoundDerivable(init: set<Clause>, kb: set<Clause>, produced: set<Clause>, n: nat)
    requires forall c :: c in kb ==> Derivable(init, c, n)
    requires SoundAddition(kb, produced)
    ensures forall c :: c in kb + produced ==> Derivable(init, c, n + 1)
  {
    forall c | c in kb + produced ensures Derivable(init, c, n + 1) {
      if c in produced {
        assert Produced(kb, c);
        var c1, c2, r :| c1 in kb && c2 in kb && c1 != c2 && PairResolvent(c1, c2, r) && c == Canonical(r);
        assert Derivable(init, c1, n) && Derivable(init, c2, n);
      }
    }
  }

  /**
   * Inside the main loop every clause of kb is canonical, so the renaming
   * standardize_clause applies by chasing gives the same clause as the
   * simultaneous one, whatever the listing and the counter.
   */
  lemma ListedCanonicalAgrees(c: set<Lit>, a: seq<Lit>, k: nat)
    requires Elems(a) == Canonical(c)
    ensures StandardizeAsWritten(a, k) == Standardize(a, k)
  {
    ClauseVarsElems(a);
    CanonicalVars(c);
    CanonicalClauseAgrees(a, k, |SetVars(c)|);
  }

  // ---------------------------------------------------------------------------
  // The loops
  // ---------------------------------------------------------------------------

  /** list(c), in an order the model leaves open. */
  method ListOf<T>(c: set<T>) returns (xs: seq<T>)
    ensures Enumerates(xs, c)
  {
    xs := [];
    var rest := c;
    while rest != {}
      invariant rest <= c && Elems(xs) == c - rest
      invariant forall i, j :: 0 <= i < j < |xs| ==> xs[i] != xs[j]
      decreases |rest|
    {
      var x :| x in rest;
      assert Elems(xs + [x]) == Elems(xs) + {x} by {
        assert forall y :: y in xs + [x] <==> y in xs || y == x;
      }
      xs := xs + [x];
      rest := rest - {x};
    }
  }

  /** One of the two loops that build res: the literals of xs but l, rewritten. */
  method RestImageOf(xs: seq<Lit>, l: Lit, sub: Subst) returns (res: set<Lit>)
    requires Tame(sub)
    ensures res == RestImage(xs, l, sub)
  {
    res := {};
    for i := 0 to |xs|
      invariant res == RestImage(xs[..i], l, sub)
    {
      assert xs[..i + 1] == xs[..i] + [xs[i]];
      RestImageSnoc(xs[..i], xs[i], l, sub);
      if xs[i] != l {
        var nt := ApplySubLit(xs[i], sub);
        res := res + {nt};
      }
    }
    assert xs[..|xs|] == xs;
  }

  /** Resolution of the i-th literal of a2 with the j-th of b2 has been handled: the resolvent is non-empty and recorded in S. */
  ghost predicate Handled(S: set<Clause>, a2: seq<Lit>, b2: seq<Lit>, i: nat, j: nat)
    requires i < |a2| && j < |b2|
  {
    ResolventAt(a2, b2, i, j).Some? ==>
      ResolventAt(a2, b2, i, j).value != {} && Canonical(ResolventAt(a2, b2, i, j).value) in S
  }

  /** produced grew from produced0 only by canonical non-empty resolvents of a2 and b2 that kb lacks. */
  ghost predicate GrewBy(kb: set<Clause>, produced0: set<Clause>, produced: set<Clause>, a2: seq<Lit>, b2: seq<Lit>)
  {
    produced0 <= produced &&
    forall c :: c in produced && c !in produced0 ==> c !in kb && exists r :: IsResolventOf(a2, b2, r) && r != {} && c == Canonical(r)
  }

  lemma HandledMono(S: set<Clause>, S': set<Clause>, a2: seq<Lit>, b2: seq<Lit>, i: nat, j: nat)
    requires i < |a2| && j < |b2| && S <= S'
    ensures Handled(S, a2, b2, i, j) ==> Handled(S', a2, b2, i, j)
  {
  }

  /** The inner loop over the literals l2 of b2, for the i-th literal l1 of a2. */
  method ResolveRow(a2: seq<Lit>, b2: seq<Lit>, i: nat, kb: set<Clause>, produced0: set<Clause>)
    returns (empty: bool, produced: set<Clause>)
    requires i < |a2|
    ensures empty ==> IsResolventOf(a2, b2, {})
    ensures GrewBy(kb, produced0, produced, a2, b2)
    ensures !empty ==> forall j: nat :: j < |b2| ==> Handled(kb + produced, a2, b2, i, j)
  {
    produced := produced0;
    for j := 0 to |b2|
      invariant GrewBy(kb, produced0, produced, a2, b2)
      invariant forall j': nat :: j' < j ==> Handled(kb + produced, a2, b2, i, j')
    {
      ghost var before := produced;
      var sub := Unify(a2[i], b2[j]);
      if sub.Some? {
        IdempotentIsTame(sub.value);
        var res1 := RestImageOf(a2, a2[i], sub.value);
        var res2 := RestImageOf(b2, b2[j], sub.value);
        var res := res1 + res2;
        assert ResolventAt(a2, b2, i, j) == Some(res);
        if res == {} {
          return true, produced;
        }
        var fz := Canonicalize(res);
        if fz !in kb && fz !in produced {
          assert IsResolventOf(a2, b2, res);
          produced := produced + {fz};
        }
        assert fz in kb + produced;
      }
      assert Handled(kb + produced, a2, b2, i, j);
      forall j': nat | j' < j + 1 ensures Handled(kb + produced, a2, b2, i, j') {
        if j' < j {
          HandledMono(kb + before, kb + produced, a2, b2, i, j');
        }
      }
    }
    empty := false;
  }

  /** The two loops over the literals of a standardized pair. */
  method ResolveLists(a2: seq<Lit>, b2: seq<Lit>, kb: set<Clause>, produced0: set<Clause>)
    returns (empty: bool, produced: set<Clause>)
    ensures empty ==> IsResolventOf(a2, b2, {})
    ensures GrewBy(kb, produced0, produced, a2, b2)
    ensures !empty ==> forall r :: IsResolventOf(a2, b2, r) ==> r != {} && Canonical(r) in kb + produced
  {
    produced := produced0;
    for i := 0 to |a2|
      invariant GrewBy(kb, produced0, produced, a2, b2)
      invariant forall i': nat, j': nat :: i' < i && j' < |b2| ==> Handled(kb + produced, a2, b2, i', j')
    {
      ghost var before := produced;
      empty, produced := ResolveRow(a2, b2, i, kb, produced);
      if empty {
        return;
      }
      forall i': nat, j': nat | i' < i && j' < |b2| ensures Handled(kb + produced, a2, b2, i', j') {
        assert Handled(kb + before, a2, b2, i', j');
      }
    }
    empty := false;
    forall r | IsResolventOf(a2, b2, r) ensures r != {} && Canonical(r) in kb + produced {
      var i: nat, j: nat :| i < |a2| && j < |b2| && ResolventAt(a2, b2, i, j) == Some(r);
      assert Handled(kb + produced, a2, b2, i, j);
    }
  }

  /**
   * The body of the loop over pairs, for the listings a and b with the
   * counter at k: standardize_pair, then every resolvent of the pair; an
   * empty one is reported, and the canonical form of every other is added
   * to produced unless kb or produced holds it already.
   */
  method ResolvePair(a: seq<Lit>, b: seq<Lit>, k: nat, kb: set<Clause>, produced0: set<Clause>)
    returns (empty: bool, produced: set<Clause>, counter: nat)
    ensures counter == StdPair(a, b, k).2
    ensures empty ==> Resolves(a, b, k, {})
    ensures !empty ==> Covered(kb + produced, a, b, k)
    ensures produced0 <= produced
    ensures forall c :: c in produced && c !in produced0 ==>
      c !in kb && exists r :: Resolves(a, b, k, r) && r != {} && c == Canonical(r)
  {
    var a2, b2;
    a2, b2, counter := StandardizePair(a, b, k);
    assert (a2, b2, counter) == StdPair(a, b, k);
    empty, produced := ResolveLists(a2, b2, kb, produced0);
    assert GrewBy(kb, produced0, produced, a2, b2);
  }

  /** The loop over j > i for the i-th clause of kb's listing. */
  method RoundRow(kbList: seq<Clause>, i: nat, kb: set<Clause>, produced0: set<Clause>, k: nat)
    returns (empty: bool, produced: set<Clause>, counter: nat)
    requires Enumerates(kbList, kb) && i < |kbList|
    requires SoundAddition(kb, produced0)
    ensures empty ==> exists c1, c2 :: c1 in kb && c2 in kb && c1 != c2 && PairResolvent(c1, c2, {})
    ensures !empty ==> SoundAddition(kb, produced) && produced0 <= produced
    ensures !empty ==> forall j: nat :: i < j < |kbList| ==> PairCovered(kb + produced, kbList[i], kbList[j])
  {
    produced, counter := produced0, k;
    assert kbList[i] in Elems(kbList);
    for j := i + 1 to |kbList|
      invariant SoundAddition(kb, produced) && produced0 <= produced
      invariant forall j': nat :: i < j' < j ==> PairCovered(kb + produced, kbList[i], kbList[j'])
    {
      assert kbList[j] in Elems(kbList) && kbList[i] != kbList[j];
      var a := ListOf(kbList[i]);
      var b := ListOf(kbList[j]);
      ghost var before, k0 := produced, counter;
      empty, produced, counter := ResolvePair(a, b, counter, kb, produced);
      if empty {
        assert PairResolvent(kbList[i], kbList[j], {});
        return;
      }
      forall c | c in produced ensures Produced(kb, c) {
        if c !in before {
          var r :| Resolves(a, b, k0, r) && r != {} && c == Canonical(r);
          assert PairResolvent(kbList[i], kbList[j], r);
        }
      }
      assert PairCovered(kb + produced, kbList[i], kbList[j]);
      forall j': nat | i < j' < j + 1 ensures PairCovered(kb + produced, kbList[i], kbList[j']) {
        if j' < j {
          PairCoveredMono(kb + before, kb + produced, kbList[i], kbList[j']);
        }
      }
    }
    empty := false;
  }

  /**
   * One round: kb listed in some order, every pair (i, j), i < j, resolved.
   * Either an empty resolvent turns up, or the round returns the new
   * canonical clauses, and then every pair of kb has had all its resolvents
   * recorded.
   */
  method Round(kb: set<Clause>, k: nat) returns (empty: bool, produced: set<Clause>, counter: nat)
    ensures empty ==> exists c1, c2 :: c1 in kb && c2 in kb && c1 != c2 && PairResolvent(c1, c2, {})
    ensures !empty ==> SoundAddition(kb, produced)
    ensures !empty ==> AllPairsCovered(kb, kb + produced)
  {
    var kbList := ListOf(kb);
    produced, counter := {}, k;
    for i := 0 to |kbList|
      invariant SoundAddition(kb, produced)
      invariant forall i': nat, j': nat :: i' < i && i' < j' < |kbList| ==>
        PairCovered(kb + produced, kbList[i'], kbList[j'])
    {
      ghost var before := produced;
      empty, produced, counter := RoundRow(kbList, i, kb, produced, counter);
      if empty {
        return;
      }
      forall i': nat, j': nat | i' < i + 1 && i' < j' < |kbList|
        ensures PairCovered(kb + produced, kbList[i'], kbList[j'])
      {
        if i' < i {
          PairCoveredMono(kb + before, kb + produced, kbList[i'], kbList[j']);
        }
      }
    }
    empty := false;
    forall c1, c2 | c1 in kb && c2 in kb && c1 != c2
      ensures PairCovered(kb + produced, c1, c2) || PairCovered(kb + produced, c2, c1)
    {
      assert c1 in Elems(kbList) && c2 in Elems(kbList);
      var i1 :| 0 <= i1 < |kbList| && kbList[i1] == c1;
      var i2 :| 0 <= i2 < |kbList| && kbList[i2] == c2;
      if i1 < i2 {
        assert PairCovered(kb + produced, kbList[i1], kbList[i2]);
      } else {
        assert PairCovered(kb + produced, kbList[i2], kbList[i1]);
      }
    }
  }

  /** Some clause of the input is empty. */
  predicate HasEmptyClause(clauses: seq<seq<Lit>>)
  {
    exists i :: 0 <= i < |clauses| && |clauses[i]| == 0
  }

  /** The loop that builds kb from the input clauses, with the counter starting at 0. */
  method InitialKb(clauses: seq<seq<Lit>>) returns (kb: set<Clause>, k: nat)
    ensures kb == InitKb(clauses, 0).0
  {
    kb, k := {}, 0;
    for i := 0 to |clauses|
      invariant kb + InitKb(clauses[i..], k).0 == InitKb(clauses, 0).0
    {
      assert clauses[i..][1..] == clauses[i + 1..];
      var c0;
      c0, k := StandardizeClause(clauses[i], k);
      var fz := Canonicalize(Elems(c0));
      kb := kb + {fz};
    }
  }

  /** Every pair of distinct clauses of before has had all its resolvents recorded in kb. */
  ghost predicate AllPairsCovered(before: set<Clause>, kb: set<Clause>)
  {
    forall c1, c2 {:trigger PairCovered(kb, c1, c2)} :: c1 in before && c2 in before && c1 != c2 ==>
      PairCovered(kb, c1, c2) || PairCovered(kb, c2, c1)
  }

  /** No clause of the set is the empty clause. */
  ghost predicate NoEmptyClause(S: set<Clause>)
  {
    forall c :: c in S ==> c != {}
  }

  /** A round adds no empty clause to a kb that has none. */
  lemma SoundAdditionNoEmpty(kb: set<Clause>, produced: set<Clause>)
    requires SoundAddition(kb, produced) && NoEmptyClause(kb)
    ensures NoEmptyClause(kb + produced)
  {
    forall c | c in produced ensures c != {} {
      assert Produced(kb, c);
      var c1, c2, r :| c1 in kb && c2 in kb && c1 != c2 && PairResolvent(c1, c2, r) && r != {} && c == Canonical(r);
      CanonicalNonEmpty(r);
    }
  }

  /** One round took kb from before to after: it grew, soundly, and covered every pair of before. */
  ghost predicate RoundStep(before: set<Clause>, after: set<Clause>)
  {
    before < after && SoundAddition(before, after - before) && AllPairsCovered(before, after)
  }

  /** hist lists the kb before each round and after the last, each from the one before by a round. */
  ghost predicate History(hist: seq<set<Clause>>)
  {
    forall i :: 0 <= i < |hist| - 1 ==> StepAt(hist, i)
  }

  /** The i-th round of hist took its i-th kb to its (i+1)-th. */
  ghost predicate StepAt(hist: seq<set<Clause>>, i: int)
    requires 0 <= i < |hist| - 1
  {
    RoundStep(hist[i], hist[i + 1])
  }

  /** Appending the kb after one more round step keeps a history. */
  lemma HistoryAppend(hist: seq<set<Clause>>, next: set<Clause>)
    requires History(hist) && |hist| > 0 && RoundStep(hist[|hist| - 1], next)
    ensures History(hist + [next])
  {
    var h := hist + [next];
    forall i | 0 <= i < |h| - 1 ensures StepAt(h, i) {
      if i < |hist| - 1 {
        assert StepAt(hist, i);
        assert h[i] == hist[i] && h[i + 1] == hist[i + 1];
      } else {
        assert h[i] == hist[|hist| - 1] && h[i + 1] == next;
      }
    }
  }

  /** hist runs from init to known by n round steps. */
  ghost predicate Trace(init: set<Clause>, hist: seq<set<Clause>>, known: set<Clause>, n: nat)
  {
    |hist| == n + 1 && hist[0] == init && hist[n] == known && History(hist)
  }

  /** A round step from the last kb of the trace extends it. */
  lemma TraceStep(init: set<Clause>, hist: seq<set<Clause>>, known: set<Clause>, n: nat, next: set<Clause>)
    requires Trace(init, hist, known, n) && RoundStep(known, next)
    ensures Trace(init, hist + [next], next, n + 1)
  {
    HistoryAppend(hist, next);
    var h := hist + [next];
    assert |h| == n + 2 && h[0] == init && h[n + 1] == next;
  }

  /** A round that adds something, soundly, after covering every pair is a round step. */
  lemma RoundStepOf(known: set<Clause>, produced: set<Clause>)
    requires produced != {} && SoundAddition(known, produced)
    requires AllPairsCovered(known, known + produced)
    ensures RoundStep(known, known + produced)
  {
    assert (known + produced) - known == produced;
    var x :| x in produced;
    assert x in known + produced && x !in known;
  }

  /** What the rounds of Saturate keep: n rounds ran from init to known, each sound. */
  ghost predicate Progress(init: set<Clause>, known: set<Clause>, hist: seq<set<Clause>>, n: nat)
  {
    && init <= known && |known| >= |init| + n
    && Trace(init, hist, known, n)
    && (forall c {:trigger Derivable(init, c, n)} :: c in known ==> Derivable(init, c, n))
    && (NoEmptyClause(init) ==> NoEmptyClause(known))
  }

  /** A round that adds something, soundly, after covering every pair, keeps Progress. */
  lemma Advance(init: set<Clause>, known: set<Clause>, produced: set<Clause>, hist: seq<set<Clause>>, n: nat)
    requires Progress(init, known, hist, n)
    requires produced != {} && SoundAddition(known, produced)
    requires AllPairsCovered(known, known + produced)
    ensures Progress(init, known + produced, hist + [known + produced], n + 1)
  {
    TraceRound(init, hist, known, produced, n);
    RoundDerivable(init, known, produced, n);
    if NoEmptyClause(init) {
      SoundAdditionNoEmpty(known, produced);
    }
    RoundGrows(known, produced);
  }

  /** A round that adds something, soundly, after covering every pair extends the trace. */
  lemma TraceRound(init: set<Clause>, hist: seq<set<Clause>>, known: set<Clause>, produced: set<Clause>, n: nat)
    requires Trace(init, hist, known, n)
    requires produced != {} && SoundAddition(known, produced)
    requires AllPairsCovered(known, known + produced)
    ensures Trace(init, hist + [known + produced], known + produced, n + 1)
  {
    RoundStepOf(known, produced);
    TraceStep(init, hist, known, n, known + produced);
  }

  /** A round that adds something, soundly, grows kb by at least one clause. */
  lemma RoundGrows(known: set<Clause>, produced: set<Clause>)
    requires produced != {} && SoundAddition(known, produced)
    ensures |known + produced| >= |known| + 1
  {
    assert known * produced == {};
  }

  /** A round that adds nothing after covering every pair leaves kb saturated. */
  lemma SaturatedOfEmptyRound(known: set<Clause>, produced: set<Clause>)
    requires produced == {} && AllPairsCovered(known, known + produced)
    ensures Saturated(known)
  {
    assert known + produced == known;
  }

  /**
   * The rounds of robinson_resolution, from the first kb init and the
   * counter k.  Beside the answer, the final kb, the kb after each round
   * and the number of rounds that grew kb are returned as ghosts.
   */
  method Saturate(init: set<Clause>, k: nat, maxIterations: int)
    returns (outcome: Outcome, ghost kb: set<Clause>, ghost hist: seq<set<Clause>>, ghost rounds: nat)
    ensures init <= kb && |kb| >= |init| + rounds
    ensures Trace(init, hist, kb, rounds)
    ensures forall c {:trigger Derivable(init, c, rounds)} :: c in kb ==> Derivable(init, c, rounds)
    ensures rounds == 0 || rounds as int <= maxIterations
    ensures NoEmptyClause(init) ==> NoEmptyClause(kb)
    ensures outcome == Unsat ==> rounds as int < maxIterations
    ensures outcome == Unsat ==> exists c1, c2 :: c1 in kb && c2 in kb && c1 != c2 && PairResolvent(c1, c2, {})
    ensures outcome == Timeout ==> rounds as int >= maxIterations || Saturated(kb)
  {
    rounds := 0;
    var known, counter := init, k;
    hist := [init];
    var iter := 0;
    while iter < maxIterations
      invariant rounds as int == iter && (iter == 0 || iter <= maxIterations)
      invariant Progress(init, known, hist, rounds)
      decreases maxIterations - iter
    {
      var empty, produced;
      empty, produced, counter := Round(known, counter);
      if empty {
        return Unsat, known, hist, rounds;
      }
      if produced == {} {
        SaturatedOfEmptyRound(known, produced);
        return Timeout, known, hist, rounds;
      }
      Advance(init, known, produced, hist, rounds);
      hist := hist + [known + produced];
      known := known + produced;
      rounds := rounds + 1;
      iter := iter + 1;
    }
    return Timeout, known, hist, rounds;
  }

  /**
   * robinson_resolution(clauses, max_iterations): an empty input clause is
   * UNSAT at once; otherwise kb is built and saturated.  Beside the answer,
   * the final kb, the kb after each round and the number of rounds that grew
   * kb are returned as ghosts.
   */
  method RobinsonResolution(clauses: seq<seq<Lit>>, maxIterations: int)
    returns (outcome: Outcome, ghost kb: set<Clause>, ghost hist: seq<set<Clause>>, ghost rounds: nat)
    ensures HasEmptyClause(clauses) ==> outcome == Unsat
    ensures !HasEmptyClause(clauses) ==>
      InitKb(clauses, 0).0 <= kb && |kb| >= |InitKb(clauses, 0).0| + rounds &&
      forall c :: c in kb ==> Derivable(InitKb(clauses, 0).0, c, rounds)
    ensures !HasEmptyClause(clauses) ==>
      |hist| == rounds + 1 && hist[0] == InitKb(clauses, 0).0 && hist[rounds] == kb && History(hist)
    ensures !HasEmptyClause(clauses) ==> NoEmptyClause(kb)
    ensures rounds == 0 || rounds as int <= maxIterations
    ensures outcome == Unsat && !HasEmptyClause(clauses) ==> rounds as int < maxIterations
    ensures outcome == Unsat && !HasEmptyClause(clauses) ==>
      exists c1, c2 :: c1 in kb && c2 in kb && c1 != c2 && PairResolvent(c1, c2, {})
    ensures outcome == Timeout ==> rounds as int >= maxIterations || Saturated(kb)
  {
    if HasEmptyClause(clauses) {
      return Unsat, {}, [{}], 0;
    }
    var init, k := InitialKb(clauses);
    InitKbNoEmpty(clauses, 0);
    outcome, kb, hist, rounds := Saturate(init, k, maxIterations);
  }
}
